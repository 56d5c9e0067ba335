/** What calculate_price promises: per-unit meaning, totals, rounding error, monotonicity. */
module PricingLaws {
  import opened Decimals
  import opened Rounding
  import opened Pricing

  // ---- the graduated loop charges each unit at its own tier ----

  /** The weight of the tier that contains unit `n`. */
  function UnitWeight(ts: seq<Tier>, w: seq<nat>, n: nat): nat
    requires |w| == |ts|
  {
    match FindTier(ts, n, 0)
    case None => 0
    case Some(k) => w[k]
  }

  /** One unit after another, each at the weight of the tier that contains it. */
  function PerUnit(ts: seq<Tier>, w: seq<nat>, q: nat): nat
    requires |w| == |ts|
  {
    if q == 0 then 0 else PerUnit(ts, w, q - 1) + UnitWeight(ts, w, q - 1)
  }

  function SliceCosts(ts: seq<Tier>, w: seq<nat>, q: nat): (s: seq<int>)
    requires |w| == |ts|
    ensures |s| == |ts|
  {
    seq(|ts|, i requires 0 <= i < |ts| => Slice(ts[i], q) * w[i])
  }

  function Prices(ts: seq<Tier>): (w: seq<nat>)
    ensures |w| == |ts|
  {
    seq(|ts|, i requires 0 <= i < |ts| => ts[i].unitPrice)
  }

  function Ones(ts: seq<Tier>): (w: seq<nat>)
    ensures |w| == |ts|
  {
    seq(|ts|, i requires 0 <= i < |ts| => 1)
  }

  lemma {:induction false} SumSingle(s: seq<int>, k: nat)
    requires k < |s| && forall i :: 0 <= i < |s| && i != k ==> s[i] == 0
    ensures Sum(s) == s[k]
  {
    if k == 0 { SumZero(s[1..]); } else { SumSingle(s[1..], k - 1); }
  }

  lemma {:induction false} SumZero(s: seq<int>)
    requires forall i :: 0 <= i < |s| ==> s[i] == 0
    ensures Sum(s) == 0
  {
    if s != [] { SumZero(s[1..]); }
  }

  lemma SliceGrows(ts: seq<Tier>, q: nat, i: nat)
    requires ValidTiers(ts) && i < |ts|
    ensures Slice(ts[i], q + 1) == Slice(ts[i], q) + (if Contains(ts[i], q) then 1 else 0)
  {
    if i < |ts| - 1 { assert ts[i].start < ts[i + 1].start; }
  }

  lemma DistributeOne(a: int, b: int)
    ensures (a + 1) * b == a * b + b
  {
  }

  lemma SliceCostStep(ts: seq<Tier>, w: seq<nat>, q: nat, i: nat, k: nat)
    requires ValidTiers(ts) && |w| == |ts| && i < |ts| && k < |ts|
    requires Contains(ts[k], q) && forall j :: 0 <= j < |ts| && Contains(ts[j], q) ==> j == k
    ensures SliceCosts(ts, w, q + 1)[i] == SliceCosts(ts, w, q)[i] + if i == k then w[k] else 0
  {
    SliceGrows(ts, q, i);
    DistributeOne(Slice(ts[i], q), w[i]);
  }

  lemma OneMoreUnit(ts: seq<Tier>, w: seq<nat>, q: nat)
    requires ValidTiers(ts) && |w| == |ts|
    ensures Sum(SliceCosts(ts, w, q + 1)) == Sum(SliceCosts(ts, w, q)) + UnitWeight(ts, w, q)
  {
    TierIsUnique(ts, q, 0);
    var k := FindTier(ts, q, 0).value;
    var step: seq<int> := seq(|ts|, i requires 0 <= i < |ts| => if i == k then w[k] else 0);
    forall i | 0 <= i < |ts|
      ensures SliceCosts(ts, w, q + 1)[i] == SliceCosts(ts, w, q)[i] + step[i]
    {
      SliceCostStep(ts, w, q, i, k);
    }
    SumAdd(SliceCosts(ts, w, q), step, SliceCosts(ts, w, q + 1));
    SumSingle(step, k);
  }

  /** Slices of valid tiers, weighted, are the unit-by-unit total: the fast form refines
      the simple one for every quantity. */
  lemma {:induction false} SlicesArePerUnit(ts: seq<Tier>, w: seq<nat>, q: nat)
    requires ValidTiers(ts) && |w| == |ts|
    ensures Sum(SliceCosts(ts, w, q)) == PerUnit(ts, w, q)
  {
    if q == 0 {
      forall i | 0 <= i < |ts| ensures SliceCosts(ts, w, 0)[i] == 0 { assert Slice(ts[i], 0) == 0; }
      SumZero(SliceCosts(ts, w, 0));
    } else {
      SlicesArePerUnit(ts, w, q - 1);
      OneMoreUnit(ts, w, q - 1);
    }
  }

  lemma {:induction false} PerUnitOnes(ts: seq<Tier>, q: nat)
    requires ValidTiers(ts)
    ensures PerUnit(ts, Ones(ts), q) == q
  {
    if q > 0 {
      PerUnitOnes(ts, q - 1);
      TierIsUnique(ts, q - 1, 0);
    }
  }

  function Quantities(cs: seq<Charge>): (s: seq<int>)
    ensures |s| == |cs|
  {
    seq(|cs|, i requires 0 <= i < |cs| => cs[i].quantity)
  }

  /** Unrounded charges, in units of 10^-36. */
  function ExactCosts(cs: seq<Charge>): (s: seq<int>)
    ensures |s| == |cs|
  {
    seq(|cs|, i requires 0 <= i < |cs| => cs[i].quantity * cs[i].unitPrice)
  }

  /** The rounded charge for a slice; a tier that is not reached charges nothing. */
  function RoundedSlice(p: Policy, t: Tier, q: nat): int
    requires ValidPolicy(p)
  {
    Round(Slice(t, q) * t.unitPrice / ONE, Quantum(p.intermediateScale), p.intermediateMode)
  }

  function RoundedSlices(p: Policy, ts: seq<Tier>, q: nat): (s: seq<int>)
    requires ValidPolicy(p)
    ensures |s| == |ts|
  {
    seq(|ts|, i requires 0 <= i < |ts| => RoundedSlice(p, ts[i], q))
  }

  predicate ChargeIsRounded(p: Policy, c: Charge)
    requires ValidPolicy(p)
  {
    && c.quantity * c.unitPrice % ONE == 0
    && c.amount == Round(c.quantity * c.unitPrice / ONE, Quantum(p.intermediateScale),
                         p.intermediateMode)
  }

  /** Where each charge sits: the slices follow one another without gap or overlap. */
  ghost predicate Partition(cs: seq<Charge>, from: nat, q: nat) {
    && (cs == [] ==> from >= q)
    && (cs != [] ==> cs[0].start == from && cs[|cs| - 1].start + cs[|cs| - 1].quantity == q)
    && (forall i :: 0 <= i < |cs| ==> cs[i].quantity > 0)
    && (forall i :: 0 <= i < |cs| - 1 ==> cs[i].start + cs[i].quantity == cs[i + 1].start)
  }

  lemma ZeroSlice(p: Policy)
    requires ValidPolicy(p)
    ensures Round(0, Quantum(p.intermediateScale), p.intermediateMode) == 0
  {
    MultipleMod(0, Quantum(p.intermediateScale));
    RoundFixesMultiples(0, Quantum(p.intermediateScale), p.intermediateMode);
  }

  /** The first charge and the rest, when tier `i` is reached. */
  lemma ChargesUnfold(p: Policy, ts: seq<Tier>, q: nat, i: nat) returns (c: Charge, rest: seq<Charge>)
    requires ValidPolicy(p) && ValidTiers(ts) && i < |ts| && q > ts[i].start
    requires ChargesFrom(p, ts, q, i).Ok?
    ensures ChargesFrom(p, ts, q, i + 1) == Ok(rest)
    ensures ChargesFrom(p, ts, q, i).value == [c] + rest
    ensures c.start == ts[i].start && c.quantity == Slice(ts[i], q) > 0
    ensures c.unitPrice == ts[i].unitPrice
    ensures ChargeIsRounded(p, c) && c.amount == RoundedSlice(p, ts[i], q)
  {
    if i < |ts| - 1 { assert ts[i].start < ts[i + 1].start; }
    c := ChargesFrom(p, ts, q, i).value[0];
    rest := ChargesFrom(p, ts, q, i + 1).value;
  }

  lemma UnreachedTiers(p: Policy, ts: seq<Tier>, q: nat, i: nat, j: nat)
    requires ValidPolicy(p) && ValidTiers(ts) && i <= j < |ts| && q <= ts[i].start
    ensures Slice(ts[j], q) == 0 && RoundedSlice(p, ts[j], q) == 0
  {
    ZeroSlice(p);
    if i < j { StartsIncrease(ts, i, j); }
  }

  lemma {:induction false} ChargesCost(p: Policy, ts: seq<Tier>, q: nat, i: nat)
    requires ValidPolicy(p) && ValidTiers(ts) && i <= |ts|
    requires ChargesFrom(p, ts, q, i).Ok?
    ensures var cs := ChargesFrom(p, ts, q, i).value;
      && Sum(ExactCosts(cs)) == Sum(SliceCosts(ts, Prices(ts), q)[i..])
      && Sum(Quantities(cs)) == Sum(SliceCosts(ts, Ones(ts), q)[i..])
    decreases |ts| - i
  {
    var cs := ChargesFrom(p, ts, q, i).value;
    var a, b := SliceCosts(ts, Prices(ts), q), SliceCosts(ts, Ones(ts), q);
    if i == |ts| {
    } else if q <= ts[i].start {
      forall j | i <= j < |ts| ensures a[j] == 0 && b[j] == 0 { UnreachedTiers(p, ts, q, i, j); }
      SumZero(a[i..]);
      SumZero(b[i..]);
    } else {
      var c, rest := ChargesUnfold(p, ts, q, i);
      ChargesCost(p, ts, q, i + 1);
      assert ExactCosts(cs)[1..] == ExactCosts(rest);
      assert Quantities(cs)[1..] == Quantities(rest);
      assert a[i..][1..] == a[i + 1..] && b[i..][1..] == b[i + 1..];
    }
  }

  lemma {:induction false} ChargesRounded(p: Policy, ts: seq<Tier>, q: nat, i: nat)
    requires ValidPolicy(p) && ValidTiers(ts) && i <= |ts|
    requires ChargesFrom(p, ts, q, i).Ok?
    ensures var cs := ChargesFrom(p, ts, q, i).value;
      && Sum(Amounts(cs)) == Sum(RoundedSlices(p, ts, q)[i..])
      && forall c <- cs :: ChargeIsRounded(p, c)
    decreases |ts| - i
  {
    var cs, d := ChargesFrom(p, ts, q, i).value, RoundedSlices(p, ts, q);
    if i == |ts| {
    } else if q <= ts[i].start {
      forall j | i <= j < |ts| ensures d[j] == 0 { UnreachedTiers(p, ts, q, i, j); }
      SumZero(d[i..]);
    } else {
      var c, rest := ChargesUnfold(p, ts, q, i);
      ChargesRounded(p, ts, q, i + 1);
      assert Amounts(cs)[1..] == Amounts(rest);
      assert d[i..][1..] == d[i + 1..];
    }
  }

  lemma {:induction false} ChargesPartition(p: Policy, ts: seq<Tier>, q: nat, i: nat)
    requires ValidPolicy(p) && ValidTiers(ts) && i < |ts|
    requires ChargesFrom(p, ts, q, i).Ok?
    ensures Partition(ChargesFrom(p, ts, q, i).value, ts[i].start, q)
    decreases |ts| - i
  {
    if q > ts[i].start {
      var c, rest := ChargesUnfold(p, ts, q, i);
      if i + 1 < |ts| { ChargesPartition(p, ts, q, i + 1); }
      PartitionGrows(ts, q, i, [c] + rest, rest);
    }
  }

  lemma PartitionGrows(ts: seq<Tier>, q: nat, i: nat, cs: seq<Charge>, rest: seq<Charge>)
    requires ValidTiers(ts) && i < |ts| && q > ts[i].start
    requires |cs| == |rest| + 1 && cs[1..] == rest
    requires cs[0].start == ts[i].start && cs[0].quantity == Slice(ts[i], q) > 0
    requires if i + 1 < |ts| then Partition(rest, ts[i + 1].start, q) else rest == []
    ensures Partition(cs, ts[i].start, q)
  {
    forall j | 0 <= j < |cs| ensures cs[j].quantity > 0 {
      if j > 0 { assert cs[j] == rest[j - 1]; }
    }
    if rest != [] { PartitionReaches(rest, ts[i + 1].start, q, |rest| - 1); }
    if i < |ts| - 1 { assert ts[i].end == Some(ts[i + 1].start); }
    forall j | 0 <= j < |cs| - 1 ensures cs[j].start + cs[j].quantity == cs[j + 1].start {
      assert cs[j + 1] == rest[j];
      if j > 0 { assert cs[j] == rest[j - 1]; }
    }
  }

  lemma {:induction false} PartitionReaches(cs: seq<Charge>, from: nat, q: nat, j: nat)
    requires Partition(cs, from, q) && j < |cs|
    ensures from < cs[j].start + cs[j].quantity
    ensures j == |cs| - 1 ==> from < q
  {
    if j > 0 {
      PartitionReaches(cs, from, q, j - 1);
      assert cs[j - 1].start + cs[j - 1].quantity == cs[j].start;
    }
  }

  /** The graduated components, before rounding, cost exactly what charging every smallest
      unit at the tier containing it costs; their slices partition [0, q). */
  lemma GraduatedIsPerUnit(p: Policy, ts: seq<Tier>, q: nat)
    requires ValidPolicy(p) && ValidTiers(ts) && Charges(p, ts, q).Ok?
    ensures var cs := Charges(p, ts, q).value;
      && Sum(ExactCosts(cs)) == PerUnit(ts, Prices(ts), q)
      && Sum(Quantities(cs)) == q
      && Partition(cs, 0, q)
      && Sum(Amounts(cs)) == Sum(RoundedSlices(p, ts, q))
  {
    ChargesCost(p, ts, q, 0);
    ChargesRounded(p, ts, q, 0);
    ChargesPartition(p, ts, q, 0);
    var a, b, d := SliceCosts(ts, Prices(ts), q), SliceCosts(ts, Ones(ts), q), RoundedSlices(p, ts, q);
    assert a[0..] == a && b[0..] == b && d[0..] == d;
    SlicesArePerUnit(ts, Prices(ts), q);
    SlicesArePerUnit(ts, Ones(ts), q);
    PerUnitOnes(ts, q);
  }

  /** For validated tiers the "not covered" errors cannot be raised: what can go wrong is
      only a product or an amount outside the decimal schema. */
  lemma {:induction false} ChargesFromError(p: Policy, ts: seq<Tier>, q: nat, i: nat)
    requires ValidPolicy(p) && i <= |ts| && ChargesFrom(p, ts, q, i).Err?
    ensures ChargesFrom(p, ts, q, i).error == DecimalOverflow
    decreases |ts| - i
  {
    if Slice(ts[i], q) == 0 || Amount(p, Slice(ts[i], q), ts[i].unitPrice).Ok? {
      ChargesFromError(p, ts, q, i + 1);
    }
  }

  lemma TiersAlwaysCover(card: Card, q: nat)
    requires ValidCard(card) && Components(card, q).Err?
    ensures Components(card, q).error == DecimalOverflow
  {
    match card.model
    case VolumeTier(ts) => TierIsUnique(ts, q, 0);
    case GraduatedTier(ts) =>
      if ChargesFrom(card.rounding, ts, q, 0).Err? {
        ChargesFromError(card.rounding, ts, q, 0);
      } else {
        ChargesPartition(card.rounding, ts, q, 0);
      }
    case _ =>
  }

  // ---- the exact price and the components ----

  /** The price without any rounding, in units of 10^-36. */
  function Exact(card: Card, q: nat): nat
    requires ValidCard(card)
  {
    match card.model
    case VolumeTier(ts) => q * UnitWeight(ts, Prices(ts), q)
    case GraduatedTier(ts) => PerUnit(ts, Prices(ts), q)
    case _ => q * card.model.unitPrice
  }

  lemma ComponentsAreExact(card: Card, q: nat)
    requires ValidCard(card) && Components(card, q).Ok?
    ensures var cs := Components(card, q).value;
      && Sum(ExactCosts(cs)) == Exact(card, q)
      && forall c <- cs :: ChargeIsRounded(card.rounding, c)
  {
    var cs := Components(card, q).value;
    if card.model.GraduatedTier? {
      ChargesRounded(card.rounding, card.model.tiers, q, 0);
      GraduatedIsPerUnit(card.rounding, card.model.tiers, q);
    } else {
      assert |cs| == 1;
      SumSingle(ExactCosts(cs), 0);
    }
  }

  lemma {:induction false} AmountsNonNegative(p: Policy, cs: seq<Charge>)
    requires ValidPolicy(p) && forall c <- cs :: ChargeIsRounded(p, c)
    ensures Sum(Amounts(cs)) >= 0
  {
    forall i | 0 <= i < |cs| ensures Amounts(cs)[i] >= 0 {
      var c := cs[i];
      assert ChargeIsRounded(p, c);
      ExactIsNatural(c.quantity, c.unitPrice);
      MagnitudeMeetsSpec(c.quantity * c.unitPrice / ONE, Quantum(p.intermediateScale), p.intermediateMode);
    }
    SumNonNegative(Amounts(cs));
  }

  lemma ExactIsNatural(q: nat, price: nat)
    ensures q * price >= 0 && q * price / ONE >= 0
  {
    LeMul(0, q, price);
    FloorMultiple(q * price, ONE);
  }

  // ---- totals ----

  lemma FinalIsRounded(p: Policy, v: int)
    requires ValidPolicy(p) && v >= 0 && Final(p, v).Ok?
    ensures var x := Final(p, v).value;
      x >= 0 && Fits(x) && x % Quantum(p.currencyScale) == 0
      && IsRounded(v, Quantum(p.currencyScale), p.finalMode, x)
  {
    MagnitudeMeetsSpec(v, Quantum(p.currencyScale), p.finalMode);
  }

  /** Every price that is produced has exact totals, is not negative, and has both monetary
      totals on the currency grid. */
  lemma PriceTotals(card: Card, q: int)
    requires ValidCard(card) && PriceOf(card, q).Ok?
    ensures var r := PriceOf(card, q).value; var u := Quantum(card.rounding.currencyScale);
      && r.quantity == q >= 0
      && r.intermediate >= 0 && r.preAdjustment >= 0 && r.final >= 0
      && Fits(r.preAdjustment) && Fits(r.final)
      && r.preAdjustment % u == 0 && r.final % u == 0
      && r.preAdjustment + AdjustmentTotal(r.adjustments) == r.final
      && IsRounded(r.intermediate, u, card.rounding.finalMode, r.preAdjustment)
  {
    var cs := Components(card, q).value;
    ComponentsAreExact(card, q);
    AmountsNonNegative(card.rounding, cs);
    var intermediate := Sum(Amounts(cs));
    FinalIsRounded(card.rounding, intermediate);
    match card.model
    case MinimumCharge(_, minimum) => FinalIsRounded(card.rounding, minimum);
    case CommitmentCredit(_, credit) => FinalIsRounded(card.rounding, Max(intermediate - credit, 0));
    case _ =>
  }

  /** The only refusals are a negative quantity and a value outside the decimal schema: the
      tier errors and the PriceResultV1 guards never fire on a valid card. */
  lemma PriceErrors(card: Card, q: int)
    requires ValidCard(card) && PriceOf(card, q).Err?
    ensures PriceOf(card, q).error == if q < 0 then InvalidCost else DecimalOverflow
  {
    if q >= 0 && Components(card, q).Err? {
      TiersAlwaysCover(card, q);
    } else if q >= 0 {
      ErrorAfterComponents(card, q);
    }
  }

  lemma ErrorAfterComponents(card: Card, q: nat)
    requires ValidCard(card) && Components(card, q).Ok? && PriceOf(card, q).Err?
    ensures PriceOf(card, q).error == DecimalOverflow
  {
    var cs := Components(card, q).value;
    ComponentsAreExact(card, q);
    AmountsNonNegative(card.rounding, cs);
    if Fit(Sum(Amounts(cs))).Ok? { SettleError(card, q, cs, Sum(Amounts(cs))); }
  }

  lemma SettleError(card: Card, q: nat, cs: seq<Charge>, intermediate: nat)
    requires ValidCard(card) && Settle(card, q, cs, intermediate).Err?
    ensures Settle(card, q, cs, intermediate).error == DecimalOverflow
  {
    var pre := Final(card.rounding, intermediate);
    if pre.Err? {
      FinalError(card.rounding, intermediate);
    } else {
      FinalIsRounded(card.rounding, intermediate);
      var desired := Desired(card, intermediate, pre.value);
      if desired.Err? {
        DesiredError(card, intermediate, pre.value);
      } else {
        DesiredInRange(card, intermediate, pre.value);
        OneAdjustment(AdjustmentCode(card.model), desired.value - pre.value);
        assert false;
      }
    }
  }

  lemma FinalError(p: Policy, v: int)
    requires ValidPolicy(p) && Final(p, v).Err?
    ensures Final(p, v).error == DecimalOverflow
  {
  }

  lemma OneAdjustment(code: Code, amount: int)
    ensures AdjustmentTotal([Adjustment(code, amount)]) == amount
    ensures AdjustmentTotal([]) == 0
  {
  }

  lemma DesiredError(card: Card, intermediate: int, pre: int)
    requires ValidCard(card) && Desired(card, intermediate, pre).Err?
    ensures Desired(card, intermediate, pre).error == DecimalOverflow
  {
  }

  lemma DesiredInRange(card: Card, intermediate: int, pre: int)
    requires ValidCard(card) && 0 <= pre && Fits(pre) && Desired(card, intermediate, pre).Ok?
    ensures var d := Desired(card, intermediate, pre).value;
      d >= 0 && Fits(d) && Fit(d - pre) == Ok(d - pre)
  {
    match card.model
    case MinimumCharge(_, minimum) => FinalIsRounded(card.rounding, minimum);
    case CommitmentCredit(_, credit) => FinalIsRounded(card.rounding, Max(intermediate - credit, 0));
    case _ =>
  }

  /** A minimum charge only raises the price, and to no less than the rounded minimum; a
      credit only lowers it, to what it leaves of the usage, rounded, and never below zero. */
  lemma AdjustmentsOnlyMoveOneWay(card: Card, q: int)
    requires ValidCard(card) && PriceOf(card, q).Ok?
    ensures var r := PriceOf(card, q).value;
      match card.model
      case MinimumCharge(_, minimum) =>
        && r.final >= r.preAdjustment
        && Final(card.rounding, minimum).Ok? && r.final >= Final(card.rounding, minimum).value
        && (r.final == r.preAdjustment || r.final == Final(card.rounding, minimum).value)
      case CommitmentCredit(_, credit) =>
        && 0 <= r.final <= r.preAdjustment && (credit >= r.intermediate ==> r.final == 0)
        && IsRounded(Max(r.intermediate - credit, 0), Quantum(card.rounding.currencyScale), card.rounding.finalMode, r.final)
      case _ => r.final == r.preAdjustment && r.adjustments == []
  {
    PriceTotals(card, q);
    var r := PriceOf(card, q).value;
    if card.model.CommitmentCredit? { CreditLowers(card.rounding, r.intermediate, card.model.credit); }
  }

  /** What a credit leaves of an amount, rounded. */
  lemma CreditLowers(p: Policy, amount: nat, credit: nat)
    requires ValidPolicy(p) && Final(p, amount).Ok? && Final(p, Max(amount - credit, 0)).Ok?
    ensures var rest := Final(p, Max(amount - credit, 0)).value;
      && 0 <= rest <= Final(p, amount).value && (credit >= amount ==> rest == 0)
      && IsRounded(Max(amount - credit, 0), Quantum(p.currencyScale), p.finalMode, rest)
  {
    var u := Quantum(p.currencyScale);
    RoundMonotone(Max(amount - credit, 0), amount, u, p.finalMode);
    MultipleMod(0, u);
    RoundFixesMultiples(0, u, p.finalMode);
    FinalIsRounded(p, Max(amount - credit, 0));
  }

  // ---- rounding error of the whole pipeline ----

  lemma {:induction false} ComponentError(p: Policy, cs: seq<Charge>)
    requires ValidPolicy(p) && (p.intermediateMode == HalfEven || p.intermediateMode == HalfUp)
    requires forall c <- cs :: ChargeIsRounded(p, c)
    ensures 2 * Abs(Sum(Amounts(cs)) * ONE - Sum(ExactCosts(cs)))
         <= |cs| * (Quantum(p.intermediateScale) * ONE)
  {
    if cs != [] {
      var rest, bound := cs[1..], Quantum(p.intermediateScale) * ONE;
      assert Amounts(cs)[1..] == Amounts(rest) && ExactCosts(cs)[1..] == ExactCosts(rest);
      ComponentError(p, rest);
      assert ChargeIsRounded(p, cs[0]);
      OneComponentError(p, cs[0]);
      DistributeOne(|rest|, bound);
      AddErrors(Sum(Amounts(rest)), cs[0].amount, Sum(ExactCosts(rest)), ExactCosts(cs)[0],
                |rest| * bound, bound);
    }
  }

  lemma OneComponentError(p: Policy, c: Charge)
    requires ValidPolicy(p) && (p.intermediateMode == HalfEven || p.intermediateMode == HalfUp)
    requires ChargeIsRounded(p, c)
    ensures 2 * Abs(c.amount * ONE - c.quantity * c.unitPrice) <= Quantum(p.intermediateScale) * ONE
  {
    var exact := c.quantity * c.unitPrice / ONE;
    RoundMeetsSpec(exact, Quantum(p.intermediateScale), p.intermediateMode);
    ScaleError(c.amount, exact, Quantum(p.intermediateScale), ONE);
  }

  lemma ScaleError(x: int, y: int, bound: int, k: nat)
    requires 2 * Abs(x - y) <= bound
    ensures 2 * Abs(x * k - y * k) <= bound * k
  {
    assert x * k - y * k == (x - y) * k;
    LeMul(2 * (x - y), bound, k);
    LeMul(2 * (y - x), bound, k);
    assert (2 * (x - y)) * k == 2 * ((x - y) * k) && (2 * (y - x)) * k == -(2 * ((x - y) * k));
  }

  lemma AddErrors(x1: int, x2: int, y1: int, y2: int, b1: int, b2: int)
    requires 2 * Abs(x1 * ONE - y1) <= b1 && 2 * Abs(x2 * ONE - y2) <= b2
    ensures 2 * Abs((x2 + x1) * ONE - (y2 + y1)) <= b1 + b2
  {
  }

  /** With half modes the pre-adjustment amount is within half an intermediate quantum per
      component plus half a currency quantum of the exact price. */
  lemma PriceError(card: Card, q: int)
    requires ValidCard(card) && PriceOf(card, q).Ok?
    requires card.rounding.intermediateMode == HalfEven || card.rounding.intermediateMode == HalfUp
    requires card.rounding.finalMode == HalfEven || card.rounding.finalMode == HalfUp
    ensures var r := PriceOf(card, q).value;
      2 * Abs(r.preAdjustment * ONE - Exact(card, q))
        <= |r.components| * (Quantum(card.rounding.intermediateScale) * ONE)
           + Quantum(card.rounding.currencyScale) * ONE
  {
    var r := PriceOf(card, q).value;
    ComponentsAreExact(card, q);
    ComponentError(card.rounding, r.components);
    PriceTotals(card, q);
    ScaleError(r.preAdjustment, r.intermediate, Quantum(card.rounding.currencyScale), ONE);
  }

  /** With one component and the same directed mode at both stages there is no double
      rounding: the result is the exact price rounded once at currency scale. */
  lemma DirectedPriceRoundsOnce(card: Card, q: int)
    requires ValidCard(card) && PriceOf(card, q).Ok? && |PriceOf(card, q).value.components| == 1
    requires card.rounding.intermediateMode == card.rounding.finalMode
    requires card.rounding.finalMode == Down || card.rounding.finalMode == Up
    ensures Exact(card, q) % ONE == 0
    ensures PriceOf(card, q).value.preAdjustment
         == Round(Exact(card, q) / ONE, Quantum(card.rounding.currencyScale), card.rounding.finalMode)
  {
    var cs := PriceOf(card, q).value.components;
    ComponentsAreExact(card, q);
    SumSingle(ExactCosts(cs), 0);
    SumSingle(Amounts(cs), 0);
    assert ChargeIsRounded(card.rounding, cs[0]);
    PolicyQuanta(card.rounding);
    DirectedTwoStage(Exact(card, q) / ONE, Quantum(card.rounding.intermediateScale),
                     Quantum(card.rounding.currencyScale), card.rounding.finalMode);
  }

  /** With one component and half modes, the same or not, the amount before adjustment is the
      exact price rounded once exactly when the exact price has no false tie. */
  lemma HalfPriceRoundsOnceExactly(card: Card, q: int)
    requires ValidCard(card) && PriceOf(card, q).Ok? && |PriceOf(card, q).value.components| == 1
    requires IsHalf(card.rounding.intermediateMode) && IsHalf(card.rounding.finalMode)
    ensures var v, p := Exact(card, q) / ONE, card.rounding; var c := Quantum(p.currencyScale);
      PriceOf(card, q).value.preAdjustment == Round(v, c, p.finalMode) <==>
        !FalseTie(v, Quantum(p.intermediateScale), p.intermediateMode, c, p.finalMode)
  {
    var cs := PriceOf(card, q).value.components;
    ComponentsAreExact(card, q);
    SumSingle(ExactCosts(cs), 0);
    SumSingle(Amounts(cs), 0);
    assert ChargeIsRounded(card.rounding, cs[0]);
    PolicyQuanta(card.rounding);
    HalfTwoStage(Exact(card, q) / ONE, Quantum(card.rounding.intermediateScale), card.rounding.intermediateMode,
                 Quantum(card.rounding.currencyScale), card.rounding.finalMode);
  }

  // ---- monotonicity ----

  lemma AmountMonotone(p: Policy, q1: nat, q2: nat, price: nat)
    requires ValidPolicy(p) && q1 <= q2
    ensures Round(q1 * price / ONE, Quantum(p.intermediateScale), p.intermediateMode)
         <= Round(q2 * price / ONE, Quantum(p.intermediateScale), p.intermediateMode)
  {
    LeMul(q1, q2, price);
    DivMonotone(q1 * price, q2 * price, ONE);
    RoundMonotone(q1 * price / ONE, q2 * price / ONE, Quantum(p.intermediateScale), p.intermediateMode);
  }

  lemma DivMonotone(a: int, b: int, c: nat)
    requires c > 0 && a <= b
    ensures a / c <= b / c
  {
    assert a == a / c * c + a % c && b == b / c * c + b % c;
    DistributeOne(b / c, c);
    if a / c > b / c { LeMul(b / c + 1, a / c, c); }
  }

  lemma IntermediateMonotone(card: Card, q1: nat, q2: nat)
    requires ValidCard(card) && !card.model.VolumeTier? && q1 <= q2
    requires Components(card, q1).Ok? && Components(card, q2).Ok?
    ensures Sum(Amounts(Components(card, q1).value)) <= Sum(Amounts(Components(card, q2).value))
  {
    var p := card.rounding;
    if card.model.GraduatedTier? {
      var ts := card.model.tiers;
      GraduatedIsPerUnit(p, ts, q1);
      GraduatedIsPerUnit(p, ts, q2);
      forall i | 0 <= i < |ts| ensures RoundedSlices(p, ts, q1)[i] <= RoundedSlices(p, ts, q2)[i] {
        AmountMonotone(p, Slice(ts[i], q1), Slice(ts[i], q2), ts[i].unitPrice);
      }
      SumLe(RoundedSlices(p, ts, q1), RoundedSlices(p, ts, q2));
    } else {
      SumSingle(Amounts(Components(card, q1).value), 0);
      SumSingle(Amounts(Components(card, q2).value), 0);
      AmountMonotone(p, q1, q2, card.model.unitPrice);
    }
  }

  /** More usage never costs less under flat, graduated, minimum-charge and commitment
      pricing, through both rounding stages and in every mode. */
  lemma PriceMonotone(card: Card, q1: int, q2: int)
    requires ValidCard(card) && !card.model.VolumeTier? && q1 <= q2
    requires PriceOf(card, q1).Ok? && PriceOf(card, q2).Ok?
    ensures PriceOf(card, q1).value.preAdjustment <= PriceOf(card, q2).value.preAdjustment
    ensures PriceOf(card, q1).value.final <= PriceOf(card, q2).value.final
  {
    IntermediateMonotone(card, q1, q2);
    DesiredMonotone(card, PriceOf(card, q1).value.intermediate, PriceOf(card, q2).value.intermediate);
  }

  /** The settled amounts follow the order of the intermediate amounts. */
  lemma DesiredMonotone(card: Card, i1: int, i2: int)
    requires ValidCard(card) && i1 <= i2
    requires Final(card.rounding, i1).Ok? && Final(card.rounding, i2).Ok?
    requires Desired(card, i1, Final(card.rounding, i1).value).Ok? && Desired(card, i2, Final(card.rounding, i2).value).Ok?
    ensures Final(card.rounding, i1).value <= Final(card.rounding, i2).value
    ensures Desired(card, i1, Final(card.rounding, i1).value).value <= Desired(card, i2, Final(card.rounding, i2).value).value
  {
    var u, m := Quantum(card.rounding.currencyScale), card.rounding.finalMode;
    RoundMonotone(i1, i2, u, m);
    if card.model.CommitmentCredit? {
      RoundMonotone(Max(i1 - card.model.credit, 0), Max(i2 - card.model.credit, 0), u, m);
    }
  }

  // ---- volume pricing can drop, and exactly when ----

  /** The quantities that the card prices: the others are refused for an amount that does not
      fit the schema. */
  predicate Priceable(card: Card, q: nat) requires ValidCard(card) { PriceOf(card, q).Ok? }

  function FinalPrice(card: Card, q: nat): int
    requires ValidCard(card) && Priceable(card, q)
  {
    PriceOf(card, q).value.final
  }

  /** Among the priceable quantities, `q` is the last one below `b`. */
  ghost predicate LastBelow(card: Card, b: nat, q: nat)
    requires ValidCard(card)
  {
    q < b && Priceable(card, q) && forall r: nat :: q < r < b ==> !Priceable(card, r)
  }

  /** And the first one at or above `b`. */
  ghost predicate FirstFrom(card: Card, b: nat, q: nat)
    requires ValidCard(card)
  {
    b <= q && Priceable(card, q) && forall r: nat :: b <= r < q ==> !Priceable(card, r)
  }

  /** At the boundary above tier `i`, the last price below is at most the first price above. */
  ghost predicate SafeBoundary(card: Card, i: nat)
    requires ValidCard(card) && card.model.VolumeTier? && i < |card.model.tiers| - 1
  {
    var b := card.model.tiers[i + 1].start;
    forall q, r :: LastBelow(card, b, q) && FirstFrom(card, b, r) ==> FinalPrice(card, q) <= FinalPrice(card, r)
  }

  ghost predicate AllSafe(card: Card)
    requires ValidCard(card) && card.model.VolumeTier?
  {
    forall i :: 0 <= i < |card.model.tiers| - 1 ==> SafeBoundary(card, i)
  }

  ghost predicate NeverDrops(card: Card)
    requires ValidCard(card)
  {
    forall q: nat, r: nat :: q <= r && Priceable(card, q) && Priceable(card, r) ==>
      FinalPrice(card, q) <= FinalPrice(card, r)
  }

  /** A volume price is the cost at the quantity's own tier, rounded at both scales. */
  lemma VolumePrice(card: Card, q: nat, k: nat)
    requires ValidCard(card) && card.model.VolumeTier? && Priceable(card, q)
    requires k < |card.model.tiers| && Contains(card.model.tiers[k], q)
    ensures var p := card.rounding;
      FinalPrice(card, q)
      == TwoStage(q * card.model.tiers[k].unitPrice / ONE, Quantum(p.intermediateScale), p.intermediateMode,
                  Quantum(p.currencyScale), p.finalMode)
  {
    TierIsUnique(card.model.tiers, q, 0);
    SumSingle(Amounts(Components(card, q).value), 0);
  }

  /** Rounding at two scales keeps the order of costs. */
  lemma RoundedCosts(p: Policy, a: int, b: int)
    requires ValidPolicy(p) && a <= b
    ensures var u, c := Quantum(p.intermediateScale), Quantum(p.currencyScale);
      TwoStage(a / ONE, u, p.intermediateMode, c, p.finalMode) <= TwoStage(b / ONE, u, p.intermediateMode, c, p.finalMode)
  {
    var u, c := Quantum(p.intermediateScale), Quantum(p.currencyScale);
    DivMonotone(a, b, ONE);
    RoundMonotone(a / ONE, b / ONE, u, p.intermediateMode);
    RoundMonotone(Round(a / ONE, u, p.intermediateMode), Round(b / ONE, u, p.intermediateMode), c, p.finalMode);
  }

  lemma SameTier(card: Card, q: nat, r: nat, k: nat)
    requires ValidCard(card) && card.model.VolumeTier? && q <= r && Priceable(card, q) && Priceable(card, r)
    requires k < |card.model.tiers| && Contains(card.model.tiers[k], q) && Contains(card.model.tiers[k], r)
    ensures FinalPrice(card, q) <= FinalPrice(card, r)
  {
    VolumePrice(card, q, k);
    VolumePrice(card, r, k);
    LeMul(q, r, card.model.tiers[k].unitPrice);
    RoundedCosts(card.rounding, q * card.model.tiers[k].unitPrice, r * card.model.tiers[k].unitPrice);
  }

  lemma {:induction false} LastBelowExists(card: Card, b: nat, q: nat) returns (l: nat)
    requires ValidCard(card) && Priceable(card, q) && q < b
    ensures LastBelow(card, b, l) && q <= l
    decreases b - q
  {
    if r: nat :| q < r < b && Priceable(card, r) { l := LastBelowExists(card, b, r); } else { l := q; }
  }

  lemma {:induction false} FirstFromExists(card: Card, b: nat, r: nat) returns (f: nat)
    requires ValidCard(card) && Priceable(card, r) && b <= r
    ensures FirstFrom(card, b, f) && f <= r
    decreases r
  {
    if q: nat :| b <= q < r && Priceable(card, q) { f := FirstFromExists(card, b, q); } else { f := r; }
  }

  lemma {:induction false} SafeIsMonotone(card: Card, q: nat, r: nat)
    requires ValidCard(card) && card.model.VolumeTier? && AllSafe(card)
    requires q <= r && Priceable(card, q) && Priceable(card, r)
    ensures FinalPrice(card, q) <= FinalPrice(card, r)
    decreases r - q
  {
    var ts := card.model.tiers;
    TierIsUnique(ts, q, 0);
    var k := FindTier(ts, q, 0).value;
    if Contains(ts[k], r) {
      SameTier(card, q, r, k);
    } else {
      var b := ts[k + 1].start;
      var l := LastBelowExists(card, b, q);
      var f := FirstFromExists(card, b, r);
      SameTier(card, q, l, k);
      assert SafeBoundary(card, k);
      SafeIsMonotone(card, f, r);
    }
  }

  /** The final price of a volume card never falls, over all the quantities it prices, if and
      only if at every tier boundary the last price below is at most the first price above. */
  lemma VolumeMonotoneExactly(card: Card)
    requires ValidCard(card) && card.model.VolumeTier?
    ensures NeverDrops(card) <==> AllSafe(card)
  {
    if AllSafe(card) {
      forall q: nat, r: nat | q <= r && Priceable(card, q) && Priceable(card, r)
        ensures FinalPrice(card, q) <= FinalPrice(card, r)
      {
        SafeIsMonotone(card, q, r);
      }
    }
  }

  // ---- a condition on the tier table alone, before any rounding ----

  function VolumeCost(ts: seq<Tier>, q: nat): nat {
    q * UnitWeight(ts, Prices(ts), q)
  }

  ghost predicate CostNeverDrops(ts: seq<Tier>) {
    forall q1: nat, q2: nat :: q1 <= q2 ==> VolumeCost(ts, q1) <= VolumeCost(ts, q2)
  }

  /** At the boundary above tier `i`, the last unit below costs no more than the first above. */
  predicate SafeCost(ts: seq<Tier>, i: nat)
    requires ValidTiers(ts) && i < |ts| - 1
  {
    (ts[i + 1].start - 1) * ts[i].unitPrice <= ts[i + 1].start * ts[i + 1].unitPrice
  }

  lemma CostInTier(ts: seq<Tier>, q: nat, k: nat)
    requires ValidTiers(ts) && k < |ts| && Contains(ts[k], q)
    ensures VolumeCost(ts, q) == q * ts[k].unitPrice
  {
    TierIsUnique(ts, q, 0);
  }

  lemma VolumeStep(ts: seq<Tier>, q: nat)
    requires ValidTiers(ts) && forall i :: 0 <= i < |ts| - 1 ==> SafeCost(ts, i)
    ensures VolumeCost(ts, q) <= VolumeCost(ts, q + 1)
  {
    TierIsUnique(ts, q, 0);
    var k := FindTier(ts, q, 0).value;
    CostInTier(ts, q, k);
    if Contains(ts[k], q + 1) {
      CostInTier(ts, q + 1, k);
      LeMul(q, q + 1, ts[k].unitPrice);
    } else {
      assert SafeCost(ts, k);
      if k + 2 < |ts| { assert ts[k + 1].start < ts[k + 2].start; }
      CostInTier(ts, q + 1, k + 1);
    }
  }

  lemma {:induction false} VolumeChain(ts: seq<Tier>, q1: nat, q2: nat)
    requires ValidTiers(ts) && forall i :: 0 <= i < |ts| - 1 ==> SafeCost(ts, i)
    requires q1 <= q2
    ensures VolumeCost(ts, q1) <= VolumeCost(ts, q2)
    decreases q2 - q1
  {
    if q1 < q2 {
      VolumeChain(ts, q1, q2 - 1);
      VolumeStep(ts, q2 - 1);
    }
  }

  /** The unrounded cost is monotone over all quantities exactly for the tier tables all of whose
      boundaries are safe. */
  lemma CostMonotoneExactly(ts: seq<Tier>)
    requires ValidTiers(ts)
    ensures CostNeverDrops(ts) <==> forall i :: 0 <= i < |ts| - 1 ==> SafeCost(ts, i)
  {
    if CostNeverDrops(ts) {
      forall i | 0 <= i < |ts| - 1 ensures SafeCost(ts, i) {
        var b := ts[i + 1].start;
        assert ts[i].start < b;
        if i + 2 < |ts| { assert b < ts[i + 2].start; }
        CostInTier(ts, b - 1, i);
        CostInTier(ts, b, i + 1);
        assert VolumeCost(ts, b - 1) <= VolumeCost(ts, b);
      }
    } else if forall i :: 0 <= i < |ts| - 1 ==> SafeCost(ts, i) {
      forall q1: nat, q2: nat | q1 <= q2 ensures VolumeCost(ts, q1) <= VolumeCost(ts, q2) {
        VolumeChain(ts, q1, q2);
      }
    }
  }

  /** Such a table never lets a price fall, under any rounding policy and whichever quantities
      can be priced.  The converse fails: rounding may hide a cost that falls. */
  lemma SafeCostsNeverDrop(card: Card)
    requires ValidCard(card) && card.model.VolumeTier?
    requires forall i :: 0 <= i < |card.model.tiers| - 1 ==> SafeCost(card.model.tiers, i)
    ensures NeverDrops(card)
  {
    var ts := card.model.tiers;
    forall q: nat, r: nat | q <= r && Priceable(card, q) && Priceable(card, r)
      ensures FinalPrice(card, q) <= FinalPrice(card, r)
    {
      TierIsUnique(ts, q, 0);
      TierIsUnique(ts, r, 0);
      VolumePrice(card, q, FindTier(ts, q, 0).value);
      VolumePrice(card, r, FindTier(ts, r, 0).value);
      VolumeChain(ts, q, r);
      RoundedCosts(card.rounding, VolumeCost(ts, q), VolumeCost(ts, r));
    }
  }
}
