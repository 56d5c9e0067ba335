/** Concrete inputs behind the counterexamples. */
module Samples {
  import opened Decimals
  import Rounding
  import Pricing
  import PricingLaws
  import opened RateCards
  import opened Usage
  import opened Allocation
  import opened Calculations
  import opened Persistence
  import opened Calculator
  import CalculationRuns
  import Replay

  /** One whole unit of usage at a price of one, in cents. */
  const PRICING := Pricing.Card(Pricing.FlatUnit(ONE), Rounding.Policy(2, 12, Rounding.HalfEven, Rounding.HalfEven))

  const WINDOW := Window(0, 10)

  const TERMS := Terms(PricingKey(1, 1, 1, 1, map[]), 0, 0, 10, PRICING, map[], None)

  function SampleUsage(scope: Name): UsageInput {
    UsageInput(scope, WINDOW, 1, 1, 0, [Aggregate(1, 1, scope, WINDOW, 1, 1, map[], ONE, 10, 0)])
  }

  /** Two keys, weighted `weight` to one. */
  function SampleSpec(weight: nat): Spec { Spec(0, [0], [Weight(1, weight), Weight(2, 1)], []) }

  function SampleRequest(weight: nat): Request {
    Request(0, WINDOW, SampleUsage(0), CardRef(1, 1, TERMS), SampleSpec(weight), 10, 0)
  }

  lemma SampleSpecIsValid(weight: nat)
    requires weight < 1000
    ensures ValidSpec(SampleSpec(weight).weights)
  {
    var ws := SampleSpec(weight).weights;
    var s := Weights(ws);
    assert s == [weight as int, 1];
    assert Sum(s) == s[0] + Sum(s[1..]) && Sum(s[1..]) == s[1..][0] + Sum(s[1..][1..]);
  }

  lemma WholeIsOnGrid(scale: nat)
    requires scale <= 18
    ensures ONE % Rounding.Quantum(scale) == 0
  {
    OneIsPow10();
    Pow10Splits(18 - scale, 18);
    MultipleMod(Pow10(18 - (18 - scale)), Rounding.Quantum(scale));
  }

  /** Rounding leaves one whole unit as it is. */
  lemma WholeStays(scale: nat, m: Rounding.Mode)
    requires scale <= 18
    ensures Rounding.Quantize(ONE, scale, m) == Ok(ONE)
  {
    WholeIsOnGrid(scale);
    Rounding.RoundFixesMultiples(ONE, Rounding.Quantum(scale), m);
  }

  lemma SamplePrice()
    ensures Pricing.PriceOf(PRICING, ONE).Ok?
  {
    WholeStays(12, Rounding.HalfEven);
    WholeStays(2, Rounding.HalfEven);
    assert Pricing.Multiply(ONE, ONE) == Ok(ONE) by { MultipleMod(ONE, ONE); }
    var charges := Pricing.Components(PRICING, ONE).value;
    assert Pricing.Amounts(charges) == [ONE as int];
    assert Sum([ONE as int]) == ONE + Sum([ONE as int][1..]);
  }

  lemma SampleQuantity(scope: Name)
    ensures Quantity(SampleUsage(scope)) == Ok(ONE)
  {
    var t := Totals(SampleUsage(scope).aggregates);
    assert t == [ONE as int];
    assert Sum(t) == t[0] + Sum(t[1..]);
  }

  lemma SampleIsPriceable(weight: nat)
    requires weight < 1000
    ensures ValidRequest(SampleRequest(weight)) && Replay.Priceable(SampleRequest(weight))
    ensures CheckRequest(SampleRequest(weight)) == None
  {
    SampleSpecIsValid(weight);
    SampleQuantity(0);
    SamplePrice();
  }

  /** A run after which an identity is stored twice and every call for it fails. */
  lemma IdentityStoredTwice() returns (actions: seq<CalculationRuns.Action>)
    ensures var s := CalculationRuns.Run(actions).store;
      !CalculationRuns.UniqueIdentities(s) && ValidRequest(SampleRequest(1))
      && CalculateIn(s, SampleRequest(1)) == Answer(s, Err(Conflict))
  {
    SampleIsPriceable(1);
    actions := Replay.InterleavedSearchesStoreTwice(SampleRequest(1));
  }

  /** A run after which a request for scope 7 is answered with the calculation of scope 0. */
  lemma OtherScopeAnswered() returns (actions: seq<CalculationRuns.Action>)
    ensures var s, p := CalculationRuns.Run(actions).store, SampleRequest(1).(scope := 7);
      && ValidRequest(p) && CalculateIn(s, p).result.Ok?
      && CalculateIn(s, p).result.value.calculation.id.series.scope == 0
  {
    SampleIsPriceable(1);
    actions := Replay.UnfaithfulReplay(SampleRequest(1), 7);
  }

  function SampleJob(weight: nat): Job
    requires Pricing.PriceOf(PRICING, ONE).Ok?
  {
    var q := SampleRequest(weight);
    JobFor(q, Pricing.PriceOf(PRICING, ONE).value, None, map[])
  }

  /** A calculation with weights 1 to 1 stops after its first record; the one with weights 2 to
      1 then succeeds, and that record is found among its records. */
  lemma OrphanFound() returns (s: Costs, c: Calculation, orphan: CostRecord)
    ensures c.id in s.calculations && s.calculations[c.id] == c
    ensures orphan in RecordsIn(s, c.id) && orphan.id !in c.recordIds
    ensures MakeReport(c, RecordsIn(s, c.id), true) == Err(InvalidCost)
  {
    SamplePrice();
    SampleQuantity(0);
    SampleSpecIsValid(1);
    SampleSpecIsValid(2);
    var a, b := SampleJob(1), SampleJob(2);
    OrphanAfterCrash(a, b);
    var ra, rb := RecordsOf(a).value, RecordsOf(b).value;
    c := CalculationFor(b, rb, None);
    orphan := ra[0];
    var stopped := ApplyAll(EMPTY, Writes(CalculationFor(a, ra, None), ra)[..1]).store;
    s := ApplyAll(stopped, Writes(c, rb)).store;
    ApplyAllExtends(stopped, Writes(c, rb));
    assert Writes(c, rb)[|rb|] in Writes(c, rb);
    OrphanSpoilsReport(s, c, orphan);
  }

  lemma OrphanSpoilsReport(s: Costs, c: Calculation, orphan: CostRecord)
    requires orphan in RecordsIn(s, c.id) && orphan.id !in c.recordIds
    ensures MakeReport(c, RecordsIn(s, c.id), true) == Err(InvalidCost)
  {
    var ids := set r <- RecordsIn(s, c.id) :: r.id;
    assert orphan.id in ids;
    assert multiset(ids)[orphan.id] == 1;
  }

  // ---- volume prices across a tier boundary ----

  function TwoTiers(upper: nat, p: Rounding.Policy): Pricing.Card {
    Pricing.Card(Pricing.VolumeTier([Pricing.Tier(0, Some(100 * ONE), ONE), Pricing.Tier(100 * ONE, None, upper)]), p)
  }

  /** One below a hundred units, one half from there on. */
  const HALVED := TwoTiers(ONE / 2, Rounding.Policy(2, 12, Rounding.HalfEven, Rounding.HalfEven))

  /** One below a hundred units, and the smallest possible discount from there on. */
  const HIDDEN := TwoTiers(ONE - 1, Rounding.Policy(2, 9, Rounding.HalfUp, Rounding.HalfUp))

  /** An amount nearest to a number of whole units is rounded to it. */
  lemma NearWhole(v: nat, n: nat, scale: nat, m: Rounding.Mode)
    requires scale <= 18 && Rounding.IsHalf(m) && Fits(n * ONE) && 2 * Abs(n * ONE - v) < Rounding.Quantum(scale)
    ensures Rounding.Quantize(v, scale, m) == Ok(n * ONE)
  {
    var u := Rounding.Quantum(scale);
    WholeIsOnGrid(scale);
    MultipleOfMultiple(n, ONE, u);
    Rounding.RoundIsExactlySpec(v, u, m, n * ONE);
  }

  lemma MultipleOfMultiple(n: nat, a: nat, u: nat)
    requires u > 0 && a % u == 0
    ensures (n * a) % u == 0
  {
    var k := a / u;
    assert a == k * u;
    assert n * a == (n * k) * u;
    MultipleMod(n * k, u);
  }

  /** The price of a quantity whose cost is nearest to a number of whole units. */
  lemma NearWholePrice(card: Pricing.Card, q: nat, k: nat, cost: nat, n: nat)
    requires Pricing.ValidCard(card) && card.model.VolumeTier? && k < |card.model.tiers|
    requires Rounding.IsHalf(card.rounding.intermediateMode) && Rounding.IsHalf(card.rounding.finalMode)
    requires Pricing.Contains(card.model.tiers[k], q) && q * card.model.tiers[k].unitPrice == cost * ONE
    requires Fits(cost) && Fits(n * ONE) && 2 * Abs(n * ONE - cost) < Rounding.Quantum(card.rounding.intermediateScale)
    ensures PricingLaws.Priceable(card, q) && PricingLaws.FinalPrice(card, q) == n * ONE
  {
    Pricing.TierIsUnique(card.model.tiers, q, 0);
    MultipleMod(cost, ONE);
    NearWhole(cost, n, card.rounding.intermediateScale, card.rounding.intermediateMode);
    NearWhole(n * ONE, n, card.rounding.currencyScale, card.rounding.finalMode);
    PricingLaws.SumSingle(Pricing.Amounts(Pricing.Components(card, q).value), 0);
  }

  /** Ninety-nine units cost 99.00, a hundred cost 50.00. */
  lemma VolumePriceDrops()
    ensures Pricing.ValidCard(HALVED) && PricingLaws.Priceable(HALVED, 99 * ONE) && PricingLaws.Priceable(HALVED, 100 * ONE)
    ensures PricingLaws.FinalPrice(HALVED, 99 * ONE) == 99 * ONE && PricingLaws.FinalPrice(HALVED, 100 * ONE) == 50 * ONE
    ensures !PricingLaws.NeverDrops(HALVED)
  {
    LowerTierPrice();
    UpperTierPrice();
  }

  lemma LowerTierPrice()
    ensures Pricing.ValidCard(HALVED)
    ensures PricingLaws.Priceable(HALVED, 99 * ONE) && PricingLaws.FinalPrice(HALVED, 99 * ONE) == 99 * ONE
  {
    NearWholePrice(HALVED, 99 * ONE, 0, 99 * ONE, 99);
  }

  lemma UpperTierPrice()
    ensures Pricing.ValidCard(HALVED)
    ensures PricingLaws.Priceable(HALVED, 100 * ONE) && PricingLaws.FinalPrice(HALVED, 100 * ONE) == 50 * ONE
  {
    NearWholePrice(HALVED, 100 * ONE, 1, 50 * ONE, 50);
  }

  /** With the smallest discount the cost falls at the boundary, but rounding hides it: no
      price ever falls. */
  lemma RoundingHidesDrop()
    ensures Pricing.ValidCard(HIDDEN) && !PricingLaws.SafeCost(HIDDEN.model.tiers, 0)
    ensures PricingLaws.NeverDrops(HIDDEN)
  {
    assert Pricing.ValidCard(HIDDEN) && !PricingLaws.SafeCost(HIDDEN.model.tiers, 0) by { HiddenCosts(); }
    HiddenBoundary();
    OneBoundary(HIDDEN);
  }

  lemma HiddenCosts()
    ensures Pricing.ValidCard(HIDDEN) && !PricingLaws.SafeCost(HIDDEN.model.tiers, 0)
  {
  }

  lemma OneBoundary(card: Pricing.Card)
    requires Pricing.ValidCard(card) && card.model.VolumeTier? && |card.model.tiers| == 2
    requires PricingLaws.SafeBoundary(card, 0)
    ensures PricingLaws.NeverDrops(card)
  {
    PricingLaws.VolumeMonotoneExactly(card);
  }

  /** The prices on both sides of the boundary. */
  lemma HiddenPrices()
    ensures Pricing.ValidCard(HIDDEN)
    ensures PricingLaws.Priceable(HIDDEN, 100 * ONE - 1) && PricingLaws.FinalPrice(HIDDEN, 100 * ONE - 1) == 100 * ONE
    ensures PricingLaws.Priceable(HIDDEN, 100 * ONE) && PricingLaws.FinalPrice(HIDDEN, 100 * ONE) == 100 * ONE
  {
    var nano: nat := 9;
    assert Rounding.Quantum(nano) == Pow10(nano) >= 1_000_000_000 by { PowProduct(4, 5, 10_000, 100_000); }
    NearWholePrice(HIDDEN, 100 * ONE - 1, 0, 100 * ONE - 1, 100);
    NearWholePrice(HIDDEN, 100 * ONE, 1, 100 * (ONE - 1), 100);
  }

  lemma HiddenBoundary()
    requires Pricing.ValidCard(HIDDEN)
    ensures PricingLaws.SafeBoundary(HIDDEN, 0)
  {
    var b := 100 * ONE;
    HiddenPrices();
    forall q, r | PricingLaws.LastBelow(HIDDEN, b, q) && PricingLaws.FirstFrom(HIDDEN, b, r)
      ensures PricingLaws.FinalPrice(HIDDEN, q) <= PricingLaws.FinalPrice(HIDDEN, r)
    {
      assert q == b - 1 && r == b;
    }
  }

  // ---- one unit at 2.4949 ----

  const SHARP_CARD := Pricing.Card(Pricing.FlatUnit(2_494_900_000_000_000_000), Rounding.SHARP)

  /** It is priced at 2.50, although the exact price rounded once is 2.49. */
  lemma TwoStagePrice()
    ensures Pricing.ValidCard(SHARP_CARD) && Pricing.PriceOf(SHARP_CARD, ONE).Ok?
    ensures Pricing.PriceOf(SHARP_CARD, ONE).value.final == 2_500_000_000_000_000_000
    ensures Rounding.Final(Rounding.SHARP, 2_494_900_000_000_000_000) == Ok(2_490_000_000_000_000_000)
  {
    Rounding.HalfTwoStageCanDiffer();
    MultipleMod(2_494_900_000_000_000_000, ONE);
    PricingLaws.SumSingle(Pricing.Amounts(Pricing.Components(SHARP_CARD, ONE).value), 0);
  }

  // ---- a credit of 0.01 on 10.005 ----

  const CREDITED := Pricing.Card(Pricing.CommitmentCredit(10_005_000_000_000_000_000, 10_000_000_000_000_000),
                                 Rounding.Policy(2, 12, Rounding.HalfEven, Rounding.HalfEven))

  /** Half even keeps an amount on the grid, and takes one halfway to an even number of quanta. */
  lemma HalfEvenTie(v: nat, scale: nat, u: nat, x: nat)
    requires scale <= 18 && Rounding.Quantum(scale) == u && Fits(x) && x % u == 0
    requires v == x || (2 * Abs(x - v) == u && (x / u) % 2 == 0)
    ensures Rounding.Quantize(v, scale, Rounding.HalfEven) == Ok(x)
  {
    Rounding.RoundIsExactlySpec(v, u, Rounding.HalfEven, x);
  }

  /** The price of one unit under a commitment credit, from the roundings on the way. */
  lemma CreditedPrice(card: Pricing.Card, amount: nat, pre: nat, final: nat)
    requires Pricing.ValidCard(card) && card.model.CommitmentCredit? && Fits(card.model.unitPrice)
    requires Rounding.Intermediate(card.rounding, card.model.unitPrice) == Ok(amount as int)
    requires Rounding.Final(card.rounding, amount) == Ok(pre as int)
    requires Rounding.Final(card.rounding, Max(amount - card.model.credit, 0)) == Ok(final as int)
    ensures PricedAt(card, pre, final)
  {
    var charges := CreditedCharge(card, amount);
    CreditedSettles(card, charges, amount, pre, final);
  }

  lemma OneUnit(unitPrice: nat, one: nat)
    requires one > 0
    ensures one * unitPrice % one == 0 && one * unitPrice / one == unitPrice
  {
    MultipleMod(unitPrice, one);
  }

  lemma AmountOfOne(p: Rounding.Policy, unitPrice: nat)
    requires Rounding.ValidPolicy(p) && Fits(unitPrice)
    ensures Pricing.Amount(p, ONE, unitPrice) == Rounding.Intermediate(p, unitPrice)
  {
    OneUnit(unitPrice, ONE);
  }

  lemma CreditedCharge(card: Pricing.Card, amount: nat) returns (charges: seq<Pricing.Charge>)
    requires Pricing.ValidCard(card) && card.model.CommitmentCredit? && Fits(card.model.unitPrice)
    requires Rounding.Intermediate(card.rounding, card.model.unitPrice) == Ok(amount as int)
    ensures Pricing.Components(card, ONE) == Ok(charges) && Sum(Pricing.Amounts(charges)) == amount
  {
    AmountOfOne(card.rounding, card.model.unitPrice);
    charges := [Pricing.Charge(0, 0, None, ONE, card.model.unitPrice, amount)];
    PricingLaws.SumSingle(Pricing.Amounts(charges), 0);
  }

  ghost predicate PricedAt(card: Pricing.Card, pre: int, final: int)
    requires Pricing.ValidCard(card)
  {
    var r := Pricing.PriceOf(card, ONE);
    r.Ok? && r.value.preAdjustment == pre && r.value.final == final
  }

  lemma CreditedSettles(card: Pricing.Card, charges: seq<Pricing.Charge>, amount: nat, pre: nat, final: nat)
    requires Pricing.ValidCard(card) && card.model.CommitmentCredit? && Fits(pre) && Fits(final)
    requires Rounding.Final(card.rounding, amount) == Ok(pre as int)
    requires Rounding.Final(card.rounding, Max(amount - card.model.credit, 0)) == Ok(final as int)
    ensures var r := Pricing.Settle(card, ONE, charges, amount);
      r.Ok? && r.value.preAdjustment == pre && r.value.final == final
  {
    PricingLaws.OneAdjustment(Pricing.AdjustmentCode(card.model), final - pre);
  }

  /** What the credit leaves, 9.995, is rounded to 10.00; taken from 10.00 it would leave 9.99. */
  lemma CreditBeforeRounding()
    ensures Pricing.ValidCard(CREDITED) && PricedAt(CREDITED, 10 * ONE, 10 * ONE)
  {
    PowProduct(4, 2, 10_000, 100);
    PowProduct(8, 8, 100_000_000, 100_000_000);
    HalfEvenTie(10_005_000_000_000_000_000, 12, 1_000_000, 10_005_000_000_000_000_000);
    HalfEvenTie(10_005_000_000_000_000_000, 2, 10_000_000_000_000_000, 10 * ONE);
    HalfEvenTie(9_995_000_000_000_000_000, 2, 10_000_000_000_000_000, 10 * ONE);
    CreditedPrice(CREDITED, 10_005_000_000_000_000_000, 10 * ONE, 10 * ONE);
  }
}
