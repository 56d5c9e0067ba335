/** What calculate_price answers, said of the card and the quantity alone. */
module PriceAnswers {
  import opened Decimals
  import opened Rounding
  import opened Pricing
  import opened PricingLaws

  // ---- what a card charges for ----

  /** A quantity and the price of each of its units, with the tier that sets the price. */
  datatype Item = Item(tier: nat, start: nat, end: Option<nat>, quantity: nat, unitPrice: nat)

  function InTier(ts: seq<Tier>, k: nat, quantity: nat): Item
    requires k < |ts|
  {
    Item(k, ts[k].start, ts[k].end, quantity, ts[k].unitPrice)
  }

  /** The part of a quantity that lies in a tier: the units from the tier's start up to its end. */
  function UnitsIn(t: Tier, q: nat): nat {
    if q <= t.start then 0
    else if t.end.Some? && t.end.value < q then Max(t.end.value - t.start, 0)
    else q - t.start
  }

  /** The cost of an item in units of the schema, when it is a whole number of them. */
  predicate Whole(i: Item) { i.quantity * i.unitPrice % ONE == 0 }

  function Cost(i: Item): int { i.quantity * i.unitPrice / ONE }

  /** Rounded at the intermediate scale. */
  function Rounded(p: Policy, v: int): int
    requires ValidPolicy(p)
  {
    Round(v, Quantum(p.intermediateScale), p.intermediateMode)
  }

  /** Rounded at the currency scale. */
  function InCurrency(p: Policy, v: int): int
    requires ValidPolicy(p)
  {
    Round(v, Quantum(p.currencyScale), p.finalMode)
  }

  /** The items are those of the card: one for the whole quantity at the one unit price, or at
      the price of the only tier that contains it, or one for every tier that is reached. */
  ghost predicate Itemises(card: Card, q: nat, items: seq<Item>) {
    match card.model
    case VolumeTier(ts) =>
      exists k :: 0 <= k < |ts| && Contains(ts[k], q) && items == [InTier(ts, k, q)]
    case GraduatedTier(ts) =>
      |items| == Reached(ts, q) <= |ts|
      && forall k :: 0 <= k < |items| ==> items[k] == InTier(ts, k, UnitsIn(ts[k], q))
    case _ => items == [Item(0, 0, None, q, card.model.unitPrice)]
  }

  /** How many tiers start below the quantity. */
  function Reached(ts: seq<Tier>, q: nat): nat {
    if ts == [] || q <= ts[0].start then 0 else 1 + Reached(ts[1..], q)
  }

  function RoundedCosts(p: Policy, items: seq<Item>): (s: seq<int>)
    requires ValidPolicy(p)
    ensures |s| == |items|
  {
    seq(|items|, i requires 0 <= i < |items| => Rounded(p, Cost(items[i])))
  }

  /** What is to be paid for an intermediate amount. */
  function Payable(card: Card, amount: int): int
    requires ValidPolicy(card.rounding)
  {
    match card.model
    case MinimumCharge(_, minimum) => Max(InCurrency(card.rounding, amount), InCurrency(card.rounding, minimum))
    case CommitmentCredit(_, credit) => InCurrency(card.rounding, Max(amount - credit, 0))
    case _ => InCurrency(card.rounding, amount)
  }

  /** Each charge is for its item, and its amount is the item's cost, rounded. */
  ghost predicate Charged(p: Policy, items: seq<Item>, cs: seq<Charge>)
    requires ValidPolicy(p)
  {
    && |cs| == |items|
    && forall i :: 0 <= i < |cs| ==>
         && Whole(items[i])
         && cs[i] == Charge(items[i].tier, items[i].start, items[i].end, items[i].quantity, items[i].unitPrice,
                            Rounded(p, Cost(items[i])))
  }

  /** A price in full. */
  ghost predicate Prices(card: Card, q: nat, items: seq<Item>, r: Price)
    requires ValidPolicy(card.rounding)
  {
    var p := card.rounding;
    && Itemises(card, q, items) && Charged(p, items, r.components)
    && r.quantity == q
    && r.intermediate == Sum(RoundedCosts(p, items))
    && r.preAdjustment == InCurrency(p, Sum(RoundedCosts(p, items)))
    && r.final == Payable(card, Sum(RoundedCosts(p, items)))
    && r.adjustments == Difference(card.model, r.final - r.preAdjustment)
  }

  /** One adjustment for the difference, named after the model, if there is any. */
  function Difference(model: Model, difference: int): seq<Adjustment> {
    if difference == 0 then []
    else if model.MinimumCharge? then [Adjustment(MinimumChargeCode, difference)]
    else if model.CommitmentCredit? then [Adjustment(CommitmentCreditCode, difference)]
    else [Adjustment(CurrencyRounding, difference)]
  }

  // ---- the items of every model ----

  lemma {:induction false} ChargesItemise(p: Policy, ts: seq<Tier>, q: nat, i: nat) returns (items: seq<Item>)
    requires ValidPolicy(p) && i <= |ts| && ChargesFrom(p, ts, q, i).Ok? && TiersGrow(ts)
    ensures |items| == Reached(ts[i..], q) <= |ts| - i
    ensures forall k :: 0 <= k < |items| ==> items[k] == InTier(ts, i + k, UnitsIn(ts[i + k], q))
    ensures Charged(p, items, ChargesFrom(p, ts, q, i).value)
    decreases |ts| - i
  {
    if i == |ts| || q <= ts[i].start {
      items := [];
    } else {
      var rest := ChargesItemise(p, ts, q, i + 1);
      assert ts[i..][1..] == ts[i + 1..];
      items := [InTier(ts, i, UnitsIn(ts[i], q))] + rest;
      forall k | 0 <= k < |items| ensures items[k] == InTier(ts, i + k, UnitsIn(ts[i + k], q)) {
        if k > 0 { assert items[k] == rest[k - 1]; }
      }
    }
  }

  /** No tier is empty. */
  ghost predicate TiersGrow(ts: seq<Tier>) {
    forall i :: 0 <= i < |ts| && ts[i].end.Some? ==> ts[i].start < ts[i].end.value
  }

  lemma ValidTiersGrow(ts: seq<Tier>)
    requires ValidTiers(ts)
    ensures TiersGrow(ts)
  {
    forall i | 0 <= i < |ts| && ts[i].end.Some? ensures ts[i].start < ts[i].end.value {
      if i < |ts| - 1 { StartsIncrease(ts, i, i + 1); }
    }
  }

  lemma ComponentsItemise(card: Card, q: nat) returns (items: seq<Item>)
    requires ValidCard(card) && Components(card, q).Ok?
    ensures Itemises(card, q, items) && Charged(card.rounding, items, Components(card, q).value)
  {
    match card.model
    case VolumeTier(ts) =>
      TierIsUnique(ts, q, 0);
      items := [InTier(ts, FindTier(ts, q, 0).value, q)];
    case GraduatedTier(ts) =>
      ValidTiersGrow(ts);
      items := ChargesItemise(card.rounding, ts, q, 0);
      assert ts[0..] == ts;
    case _ => items := [Item(0, 0, None, q, card.model.unitPrice)];
  }

  /** The charges add up to the rounded costs of the items. */
  lemma ChargedAmounts(p: Policy, items: seq<Item>, cs: seq<Charge>)
    requires ValidPolicy(p) && Charged(p, items, cs)
    ensures Amounts(cs) == RoundedCosts(p, items)
  {
  }

  /** Every price that is produced is the one the card prescribes for the quantity. */
  lemma PriceMeans(card: Card, q: int) returns (items: seq<Item>)
    requires ValidCard(card) && PriceOf(card, q).Ok?
    ensures q >= 0 && Prices(card, q, items, PriceOf(card, q).value)
  {
    items := ComponentsItemise(card, q);
    ChargedAmounts(card.rounding, items, Components(card, q).value);
    PriceTotals(card, q);
  }

  /** A commitment credit is taken from the amount rounded at the intermediate scale, and what
      it leaves is rounded once. */
  lemma CreditPrice(unitPrice: nat, credit: nat, p: Policy, q: int)
    requires ValidCard(Card(CommitmentCredit(unitPrice, credit), p)) && PriceOf(Card(CommitmentCredit(unitPrice, credit), p), q).Ok?
    ensures q >= 0 && PriceOf(Card(CommitmentCredit(unitPrice, credit), p), q).value.final
      == Round(Max(Round(q * unitPrice / ONE, Quantum(p.intermediateScale), p.intermediateMode) - credit, 0),
               Quantum(p.currencyScale), p.finalMode)
  {
    var items := PriceMeans(Card(CommitmentCredit(unitPrice, credit), p), q);
    assert RoundedCosts(p, items) == [Rounded(p, Cost(items[0]))];
    SumSingle(RoundedCosts(p, items), 0);
  }

  // ---- when there is a price ----

  /** Its cost is a whole number of units of the schema and fits it, rounded or not. */
  predicate Chargeable(p: Policy, i: Item)
    requires ValidPolicy(p)
  {
    Whole(i) && Fits(Cost(i)) && Fits(Rounded(p, Cost(i)))
  }

  ghost predicate AllChargeable(p: Policy, items: seq<Item>)
    requires ValidPolicy(p)
  {
    forall i :: 0 <= i < |items| ==> Chargeable(p, items[i])
  }

  lemma {:induction false} ReachedBound(ts: seq<Tier>, q: nat)
    ensures Reached(ts, q) <= |ts|
  {
    if ts != [] { ReachedBound(ts[1..], q); }
  }

  /** Every card has items for every quantity. */
  lemma ItemsExist(card: Card, q: nat) returns (items: seq<Item>)
    requires ValidCard(card)
    ensures Itemises(card, q, items)
  {
    match card.model
    case VolumeTier(ts) =>
      TierIsUnique(ts, q, 0);
      items := [InTier(ts, FindTier(ts, q, 0).value, q)];
    case GraduatedTier(ts) =>
      ReachedBound(ts, q);
      items := seq(Reached(ts, q), k requires 0 <= k < Reached(ts, q) => InTier(ts, k, UnitsIn(ts[k], q)));
    case _ => items := [Item(0, 0, None, q, card.model.unitPrice)];
  }

  lemma AmountSucceeds(p: Policy, i: Item)
    requires ValidPolicy(p)
    ensures Amount(p, i.quantity, i.unitPrice).Ok? <==> Chargeable(p, i)
  {
  }

  lemma {:induction false} ChargesSucceed(p: Policy, ts: seq<Tier>, q: nat, i: nat, items: seq<Item>)
    requires ValidPolicy(p) && i <= |ts| && TiersGrow(ts)
    requires |items| == Reached(ts[i..], q) <= |ts| - i
    requires forall k :: 0 <= k < |items| ==> items[k] == InTier(ts, i + k, UnitsIn(ts[i + k], q))
    ensures ChargesFrom(p, ts, q, i).Ok? <==> AllChargeable(p, items)
    decreases |ts| - i
  {
    if i < |ts| && q > ts[i].start {
      assert ts[i..][1..] == ts[i + 1..];
      ChargesSucceed(p, ts, q, i + 1, items[1..]);
      AmountSucceeds(p, items[0]);
      if AllChargeable(p, items[1..]) && Chargeable(p, items[0]) {
        forall k | 0 <= k < |items| ensures Chargeable(p, items[k]) {
          if k > 0 { assert Chargeable(p, items[1..][k - 1]); }
        }
      }
      if AllChargeable(p, items) {
        forall k | 0 <= k < |items[1..]| ensures Chargeable(p, items[1..][k]) { assert items[1..][k] == items[k + 1]; }
      }
    }
  }

  lemma ComponentsSucceed(card: Card, q: nat, items: seq<Item>)
    requires ValidCard(card) && Itemises(card, q, items)
    ensures Components(card, q).Ok? <==> AllChargeable(card.rounding, items)
  {
    match card.model
    case VolumeTier(ts) =>
      TierIsUnique(ts, q, 0);
      AmountSucceeds(card.rounding, items[0]);
    case GraduatedTier(ts) =>
      ValidTiersGrow(ts);
      assert ts[0..] == ts;
      ChargesSucceed(card.rounding, ts, q, 0, items);
    case _ => AmountSucceeds(card.rounding, items[0]);
  }

  /** There is a price exactly when the quantity is not negative, every item can be charged,
      and their sum fits at both scales, as does the minimum charge. */
  lemma PriceSucceedsExactly(card: Card, q: nat, items: seq<Item>)
    requires ValidCard(card) && Itemises(card, q, items)
    ensures PriceOf(card, q).Ok? <==>
      var sum := Sum(RoundedCosts(card.rounding, items));
      && AllChargeable(card.rounding, items) && Fits(sum) && Fits(InCurrency(card.rounding, sum))
      && (card.model.MinimumCharge? ==> Fits(InCurrency(card.rounding, card.model.minimum)))
  {
    ComponentsSucceed(card, q, items);
    if Components(card, q).Ok? {
      var again := ComponentsItemise(card, q);
      SameItems(card, q, items, again);
      ChargedAmounts(card.rounding, items, Components(card, q).value);
      ComponentsAreExact(card, q);
      AmountsNonNegative(card.rounding, Components(card, q).value);
      SettleSucceeds(card, q, Components(card, q).value, Sum(RoundedCosts(card.rounding, items)));
    }
  }

  /** A card has only one list of items for a quantity. */
  lemma SameItems(card: Card, q: nat, items: seq<Item>, again: seq<Item>)
    requires ValidCard(card) && Itemises(card, q, items) && Itemises(card, q, again)
    ensures items == again
  {
    if card.model.VolumeTier? { TierIsUnique(card.model.tiers, q, 0); }
  }

  lemma SettleSucceeds(card: Card, q: nat, cs: seq<Charge>, amount: nat)
    requires ValidCard(card)
    ensures Settle(card, q, cs, amount).Ok? <==>
      Fits(InCurrency(card.rounding, amount))
      && (card.model.MinimumCharge? ==> Fits(InCurrency(card.rounding, card.model.minimum)))
  {
    var p, u := card.rounding, Quantum(card.rounding.currencyScale);
    MagnitudeMeetsSpec(amount, u, p.finalMode);
    if card.model.MinimumCharge? { MagnitudeMeetsSpec(card.model.minimum, u, p.finalMode); }
    if card.model.CommitmentCredit? {
      var rest := Max(amount - card.model.credit, 0);
      MagnitudeMeetsSpec(rest, u, p.finalMode);
      RoundMonotone(rest, amount, u, p.finalMode);
    }
    if Final(p, amount).Ok? && Desired(card, amount, Final(p, amount).value).Ok? {
      OneAdjustment(AdjustmentCode(card.model), Desired(card, amount, Final(p, amount).value).value - Final(p, amount).value);
    }
  }
}
