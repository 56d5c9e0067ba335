/** The five closed pricing models and calculate_price. */
module Pricing {
  import opened Decimals
  import opened Rounding

  // ---- tiers ----

  datatype Tier = Tier(start: nat, end: Option<nat>, unitPrice: nat)

  predicate Contains(t: Tier, q: nat) {
    t.start <= q && (t.end.None? || q < t.end.value)
  }

  /** _validate_tiers together with the PricingTier constructor. */
  predicate ValidTiers(ts: seq<Tier>) {
    && 1 <= |ts| <= 100
    && ts[0].start == 0
    && (forall i :: 0 <= i < |ts| - 1 ==>
          ts[i].end.Some? && ts[i].end.value == ts[i + 1].start && ts[i].start < ts[i + 1].start)
    && ts[|ts| - 1].end.None?
  }

  /** First tier at or after `i` that contains `q`. */
  function FindTier(ts: seq<Tier>, q: nat, i: nat): (r: Option<nat>)
    requires i <= |ts|
    ensures r.Some? ==> i <= r.value < |ts| && Contains(ts[r.value], q)
    ensures forall j :: i <= j < (if r.Some? then r.value else |ts|) ==> !Contains(ts[j], q)
    decreases |ts| - i
  {
    if i == |ts| then None else if Contains(ts[i], q) then Some(i) else FindTier(ts, q, i + 1)
  }

  lemma {:induction false} StartsIncrease(ts: seq<Tier>, i: nat, j: nat)
    requires ValidTiers(ts) && i < j < |ts|
    ensures ts[i].start < ts[j].start && ts[i].end.Some? && ts[i].end.value <= ts[j].start
    decreases j - i
  {
    if j > i + 1 {
      StartsIncrease(ts, i, j - 1);
      assert ts[j - 1].start < ts[j].start;
    }
  }

  /** Valid tiers cover every quantity once: the volume lookup cannot fail, and which tier
      it finds does not depend on searching from the front. */
  lemma {:induction false} TierIsUnique(ts: seq<Tier>, q: nat, i: nat)
    requires ValidTiers(ts) && i < |ts| && ts[i].start <= q
    ensures FindTier(ts, q, i).Some?
    ensures var k := FindTier(ts, q, i).value;
      && i <= k < |ts| && Contains(ts[k], q)
      && forall j :: 0 <= j < |ts| && Contains(ts[j], q) ==> j == k
    decreases |ts| - i
  {
    if Contains(ts[i], q) {
      forall j | 0 <= j < |ts| && Contains(ts[j], q) ensures j == i {
        if j < i { StartsIncrease(ts, j, i); }
        if i < j { StartsIncrease(ts, i, j); }
      }
    } else {
      assert i < |ts| - 1;
      TierIsUnique(ts, q, i + 1);
    }
  }

  // ---- cards, charges and prices ----

  datatype Model =
    | FlatUnit(unitPrice: nat)
    | VolumeTier(tiers: seq<Tier>)
    | GraduatedTier(tiers: seq<Tier>)
    | MinimumCharge(unitPrice: nat, minimum: nat)
    | CommitmentCredit(unitPrice: nat, credit: nat)

  datatype Card = Card(model: Model, rounding: Policy)

  predicate ValidCard(card: Card) {
    && ValidPolicy(card.rounding)
    && match card.model
       case VolumeTier(ts) => ValidTiers(ts)
       case GraduatedTier(ts) => ValidTiers(ts)
       case MinimumCharge(_, minimum) => Fits(minimum)
       case CommitmentCredit(_, credit) => Fits(credit)
       case FlatUnit(_) => true
  }

  datatype Charge = Charge(tier: nat, start: nat, end: Option<nat>, quantity: nat,
                           unitPrice: nat, amount: int)

  datatype Code = MinimumChargeCode | CommitmentCreditCode | CurrencyRounding | Allocated

  datatype Adjustment = Adjustment(code: Code, amount: int)

  datatype Price = Price(quantity: int, components: seq<Charge>, intermediate: int,
                         preAdjustment: int, adjustments: seq<Adjustment>, final: int)

  function AdjustmentTotal(adjustments: seq<Adjustment>): int {
    if adjustments == [] then 0 else adjustments[0].amount + AdjustmentTotal(adjustments[1..])
  }

  /** The PriceResultV1 constructor. */
  function MakePrice(p: Price): Result<Price> {
    if p.preAdjustment + AdjustmentTotal(p.adjustments) != p.final then Err(InvalidCost)
    else if p.final < 0 then Err(InvalidCost)
    else Ok(p)
  }

  /** _multiply: an exact product that needs more than 18 fractional digits is refused. */
  function Multiply(q: nat, price: nat): Result<int> {
    if q * price % ONE == 0 then Fit(q * price / ONE) else Err(DecimalOverflow)
  }

  function Amount(p: Policy, q: nat, price: nat): Result<int>
    requires ValidPolicy(p)
  {
    var exact :- Multiply(q, price);
    Intermediate(p, exact)
  }

  function FlatComponent(p: Policy, unitPrice: nat, q: nat): Result<seq<Charge>>
    requires ValidPolicy(p)
  {
    var amount :- Amount(p, q, unitPrice);
    Ok([Charge(0, 0, None, q, unitPrice, amount)])
  }

  function VolumeComponent(p: Policy, ts: seq<Tier>, q: nat): Result<seq<Charge>>
    requires ValidPolicy(p)
  {
    match FindTier(ts, q, 0)
    case None => Err(InvalidTier)
    case Some(k) =>
      var amount :- Amount(p, q, ts[k].unitPrice);
      Ok([Charge(k, ts[k].start, ts[k].end, q, ts[k].unitPrice, amount)])
  }

  /** How much of `q` a tier consumes. */
  function Slice(t: Tier, q: nat): nat {
    var upper := if t.end.None? then q else Min(q, t.end.value);
    if upper <= t.start then 0 else upper - t.start
  }

  /** The charges for tiers `i` and later. */
  function ChargesFrom(p: Policy, ts: seq<Tier>, q: nat, i: nat): Result<seq<Charge>>
    requires ValidPolicy(p) && i <= |ts|
    decreases |ts| - i
  {
    if i == |ts| || q <= ts[i].start then Ok([])
    else if Slice(ts[i], q) == 0 then ChargesFrom(p, ts, q, i + 1)
    else
      var amount :- Amount(p, Slice(ts[i], q), ts[i].unitPrice);
      var rest :- ChargesFrom(p, ts, q, i + 1);
      Ok([Charge(i, ts[i].start, ts[i].end, Slice(ts[i], q), ts[i].unitPrice, amount)] + rest)
  }

  function Charges(p: Policy, ts: seq<Tier>, q: nat): Result<seq<Charge>>
    requires ValidPolicy(p)
  {
    var cs :- ChargesFrom(p, ts, q, 0);
    if q > 0 && cs == [] then Err(InvalidTier) else Ok(cs)
  }

  /** What `head` followed by a possibly failing `rest` gives. */
  function Prepend(head: seq<Charge>, rest: Result<seq<Charge>>): Result<seq<Charge>> {
    match rest
    case Ok(cs) => Ok(head + cs)
    case Err(e) => Err(e)
  }

  /** _graduated_components: the loop, with its break and its continue. */
  method GraduatedComponents(p: Policy, ts: seq<Tier>, q: nat) returns (r: Result<seq<Charge>>)
    requires ValidPolicy(p)
    ensures r == Charges(p, ts, q)
  {
    var components: seq<Charge> := [];
    var index := 0;
    assert forall cs: seq<Charge> :: [] + cs == cs;
    while index < |ts|
      invariant index <= |ts|
      invariant ChargesFrom(p, ts, q, 0) == Prepend(components, ChargesFrom(p, ts, q, index))
    {
      var tier := ts[index];
      if q <= tier.start { break; }
      var upper := if tier.end.None? then q else Min(q, tier.end.value);
      var consumed := upper - tier.start;
      if consumed <= 0 {
        index := index + 1;
        continue;
      }
      var amount := Amount(p, consumed, tier.unitPrice);
      if amount.Err? { return Err(amount.error); }
      var charge := Charge(index, tier.start, tier.end, consumed, tier.unitPrice, amount.value);
      assert forall cs: seq<Charge> :: components + ([charge] + cs) == (components + [charge]) + cs;
      components := components + [charge];
      index := index + 1;
    }
    assert components + [] == components;
    if q > 0 && components == [] { return Err(InvalidTier); }
    return Ok(components);
  }

  function Components(card: Card, q: nat): Result<seq<Charge>>
    requires ValidCard(card)
  {
    match card.model
    case FlatUnit(u) => FlatComponent(card.rounding, u, q)
    case MinimumCharge(u, _) => FlatComponent(card.rounding, u, q)
    case CommitmentCredit(u, _) => FlatComponent(card.rounding, u, q)
    case VolumeTier(ts) => VolumeComponent(card.rounding, ts, q)
    case GraduatedTier(ts) => Charges(card.rounding, ts, q)
  }

  function Amounts(cs: seq<Charge>): (s: seq<int>)
    ensures |s| == |cs|
  {
    seq(|cs|, i requires 0 <= i < |cs| => cs[i].amount)
  }

  /** The amount the customer is to pay, from the two rounded stages before it. */
  function Desired(card: Card, intermediate: int, pre: int): Result<int>
    requires ValidCard(card)
  {
    match card.model
    case MinimumCharge(_, minimum) =>
      var floor :- Final(card.rounding, minimum);
      Ok(Max(pre, floor))
    case CommitmentCredit(_, credit) => Final(card.rounding, Max(intermediate - credit, 0))
    case _ => Ok(pre)
  }

  function AdjustmentCode(model: Model): Code {
    match model
    case MinimumCharge(_, _) => MinimumChargeCode
    case CommitmentCredit(_, _) => CommitmentCreditCode
    case _ => CurrencyRounding
  }

  /** Final rounding, the model's adjustment, and the result, from the summed components. */
  function Settle(card: Card, q: int, components: seq<Charge>, intermediate: int): Result<Price>
    requires ValidCard(card)
  {
    var pre :- Final(card.rounding, intermediate);
    var desired :- Desired(card, intermediate, pre);
    var difference :- Fit(desired - pre);
    var adjustments :=
      if difference == 0 then [] else [Adjustment(AdjustmentCode(card.model), difference)];
    MakePrice(Price(q, components, intermediate, pre, adjustments, desired))
  }

  /** The specification of calculate_price. */
  function PriceOf(card: Card, q: int): Result<Price>
    requires ValidCard(card)
  {
    if q < 0 then Err(InvalidCost) else
    var components :- Components(card, q);
    var intermediate :- Fit(Sum(Amounts(components)));
    Settle(card, q, components, intermediate)
  }

  method SelectComponents(card: Card, quantity: nat) returns (r: Result<seq<Charge>>)
    requires ValidCard(card)
    ensures r == Components(card, quantity)
  {
    if card.model.GraduatedTier? {
      r := GraduatedComponents(card.rounding, card.model.tiers, quantity);
    } else if card.model.VolumeTier? {
      r := VolumeComponent(card.rounding, card.model.tiers, quantity);
    } else {
      r := FlatComponent(card.rounding, card.model.unitPrice, quantity);
    }
  }

  /** calculate_price, with its reassigned `desired` and adjustment variables. */
  method CalculatePrice(card: Card, quantity: int) returns (r: Result<Price>)
    requires ValidCard(card)
    ensures r == PriceOf(card, quantity)
  {
    if quantity < 0 { return Err(InvalidCost); }
    var components :- SelectComponents(card, quantity);
    var intermediate :- Fit(Sum(Amounts(components)));
    var pre :- Final(card.rounding, intermediate);
    var desired := pre;
    var code := CurrencyRounding;
    if card.model.MinimumCharge? {
      var floor :- Final(card.rounding, card.model.minimum);
      desired := Max(pre, floor);
      code := MinimumChargeCode;
    } else if card.model.CommitmentCredit? {
      desired :- Final(card.rounding, Max(intermediate - card.model.credit, 0));
      code := CommitmentCreditCode;
    }
    var adjustments: seq<Adjustment> := [];
    var difference :- Fit(desired - pre);
    if difference != 0 { adjustments := [Adjustment(code, difference)]; }
    r := MakePrice(Price(quantity, components, intermediate, pre, adjustments, desired));
  }
}
