/** What a stored calculation bills: its totals and the amounts of its records, said of the
    usage, the card and the weights that its identity names. */
module Billing {
  import opened Decimals
  import opened Rounding
  import opened RateCards
  import opened Usage
  import opened Pricing
  import PricingLaws
  import opened PriceAnswers
  import opened Allocation
  import opened AllocationAnswers
  import opened Calculations
  import opened Persistence
  import opened Calculator
  import opened CalculationRuns
  import Replay

  /** The totals of the calculation are those the card prescribes for the usage's total. */
  ghost predicate Totalled(c: Calculation, items: seq<Item>)
    requires ValidCard(c.identity.card.terms.pricing)
  {
    var card := c.identity.card.terms.pricing;
    && TotalOf(c.identity.usage.aggregates) >= 0
    && Itemises(card, TotalOf(c.identity.usage.aggregates), items)
    && c.quantity == TotalOf(c.identity.usage.aggregates)
    && c.preAdjustment == InCurrency(card.rounding, Sum(RoundedCosts(card.rounding, items)))
    && c.final == Payable(card, Sum(RoundedCosts(card.rounding, items)))
    && c.adjustmentTotal == c.final - c.preAdjustment
  }

  /** The record is for weight `k` of the calculation and carries what that was made from. */
  ghost predicate RecordOf(c: Calculation, r: CostRecord, k: nat, count: nat)
    requires k < |c.identity.allocation.weights|
  {
    var i := c.identity;
    && r.allocation == AllocationKey(i.allocation, i.allocation.weights[k].key)
    && r.id == CostId(c.id, r.allocation) && r.calculation == c.id
    && r.usage == i.usage && r.card == i.card && r.calculatorVersion == i.calculatorVersion
    && r.occurredAt == c.createdAt
    && r.adjustments == Expected(i.card.terms.pricing.model, count, r.final - r.preAdjustment)
  }

  /** There is one record for each weight, and these are the record ids. */
  ghost predicate Carries(c: Calculation, rs: seq<CostRecord>) {
    && |rs| == |c.identity.allocation.weights|
    && c.recordIds == multiset(RecordIds(rs))
    && forall k :: 0 <= k < |rs| ==> RecordOf(c, rs[k], k, |rs|)
  }

  /** The adjustments of a record: those of the price if it is the only one, and otherwise one
      for its own difference, if any. */
  function Expected(model: Model, count: nat, difference: int): seq<Adjustment> {
    if count == 1 then Difference(model, difference)
    else if difference == 0 then []
    else [Adjustment(Allocated, difference)]
  }

  /** Quantity and amounts are apportioned over the records by the weights. */
  ghost predicate Shared(c: Calculation, rs: seq<CostRecord>)
    requires ValidCard(c.identity.card.terms.pricing) && ValidSpec(c.identity.allocation.weights)
  {
    var ws, scale := c.identity.allocation.weights, c.identity.card.terms.pricing.rounding.currencyScale;
    && Apportions(PRECISION, c.quantity, ws, 18, Quantities(rs))
    && Apportions(PRECISION, c.preAdjustment, ws, scale, PreAdjustments(rs))
    && Apportions(PRECISION, c.final, ws, scale, Finals(rs))
  }

  ghost predicate Billed(c: Calculation, rs: seq<CostRecord>) {
    && ValidCard(c.identity.card.terms.pricing) && ValidSpec(c.identity.allocation.weights)
    && (exists items :: Totalled(c, items)) && Carries(c, rs) && Shared(c, rs)
  }

  // ---- what is built is billed ----

  ghost predicate SplitShared(job: Job, s: Split)
    requires Sum(Weights(job.spec.weights)) > 0 && ValidCard(job.card.terms.pricing) && Quantity(job.usage).Ok?
  {
    var ws, scale := job.spec.weights, job.card.terms.pricing.rounding.currencyScale;
    && Apportions(PRECISION, Quantity(job.usage).value, ws, 18, s.quantities)
    && Apportions(PRECISION, job.price.preAdjustment, ws, scale, s.pres)
    && Apportions(PRECISION, job.price.final, ws, scale, s.finals)
  }

  /** The three allocations behind a split. */
  lemma SplitMeans(job: Job, s: Split)
    requires Sum(Weights(job.spec.weights)) > 0 && SplitOf(job) == Ok(s)
    ensures var ws, scale := job.spec.weights, job.card.terms.pricing.rounding.currencyScale;
      && AllocationOf(PRECISION, job.price.final, ws, scale) == Ok(s.finals)
      && AllocationOf(PRECISION, job.price.preAdjustment, ws, scale) == Ok(s.pres)
      && Quantity(job.usage).Ok? && AllocationOf(PRECISION, Quantity(job.usage).value, ws, 18) == Ok(s.quantities)
  {
  }

  lemma OneShared(total: int, ws: seq<Weight>, scale: nat, r: seq<int>)
    requires ValidSpec(ws) && Fits(total) && scale <= 18 && AllocationOf(PRECISION, total, ws, scale) == Ok(r)
    ensures Apportions(PRECISION, total, ws, scale, r)
  {
    AmountsApportion(PRECISION, total, ws, scale, r);
  }

  lemma SplitApportions(job: Job, s: Split)
    requires Priced(job) && SplitOf(job) == Ok(s)
    ensures SplitShared(job, s)
  {
    var ws, scale := job.spec.weights, job.card.terms.pricing.rounding.currencyScale;
    SplitMeans(job, s);
    PricingLaws.PriceTotals(job.card.terms.pricing, Quantity(job.usage).value);
    OneShared(job.price.final, ws, scale, s.finals);
    OneShared(job.price.preAdjustment, ws, scale, s.pres);
    OneShared(Quantity(job.usage).value, ws, 18, s.quantities);
  }

  lemma PriceAdjustments(job: Job)
    requires Priced(job)
    ensures job.price.adjustments == Difference(job.card.terms.pricing.model, job.price.final - job.price.preAdjustment)
  {
    var items := PriceMeans(job.card.terms.pricing, Quantity(job.usage).value);
  }

  lemma AdjustmentsExpected(job: Job, s: Split, k: nat)
    requires Priced(job) && SplitAddsUp(job, s) && k < |job.spec.weights|
    ensures AdjustmentsFor(job, s.pres[k], s.finals[k])
         == Expected(job.card.terms.pricing.model, |job.spec.weights|, s.finals[k] - s.pres[k])
  {
    if |job.spec.weights| == 1 {
      PriceAdjustments(job);
      Single(s.finals);
      Single(s.pres);
    }
  }

  lemma AllRecordsCarry(job: Job, s: Split, supersedes: Option<VersionId>)
    requires Priced(job) && SplitAddsUp(job, s)
    ensures Carries(CalculationFor(job, AllRecords(job, s), supersedes), AllRecords(job, s))
  {
    var rs := AllRecords(job, s);
    forall k | 0 <= k < |rs| ensures RecordOf(CalculationFor(job, rs, supersedes), rs[k], k, |rs|) {
      OneRecordCarries(job, s, CalculationFor(job, rs, supersedes), k);
    }
  }

  lemma OneRecordCarries(job: Job, s: Split, c: Calculation, k: nat)
    requires Priced(job) && SplitAddsUp(job, s) && k < |job.spec.weights|
    requires c.id == job.version && c.createdAt == job.occurredAt && c.identity.usage == job.usage
    requires c.identity.card == job.card && c.identity.allocation == job.spec
    requires c.identity.calculatorVersion == job.calculatorVersion
    ensures RecordOf(c, RecordAt(job, s, k), k, |job.spec.weights|)
  {
    AdjustmentsExpected(job, s, k);
  }

  lemma AmountsOfRecords(job: Job, s: Split)
    requires SplitFits(job, s)
    ensures Quantities(AllRecords(job, s)) == s.quantities && PreAdjustments(AllRecords(job, s)) == s.pres
    ensures Finals(AllRecords(job, s)) == s.finals
  {
  }

  lemma SharedBy(job: Job, s: Split, c: Calculation, rs: seq<CostRecord>)
    requires Quantity(job.usage).Ok? && ValidCard(job.card.terms.pricing) && ValidSpec(job.spec.weights) && SplitShared(job, s)
    requires c.identity.allocation == job.spec && c.identity.card == job.card && c.quantity == Quantity(job.usage).value
    requires c.preAdjustment == job.price.preAdjustment && c.final == job.price.final
    requires Quantities(rs) == s.quantities && PreAdjustments(rs) == s.pres && Finals(rs) == s.finals
    ensures Shared(c, rs)
  {
  }

  lemma RecordsAreApportioned(job: Job, rs: seq<CostRecord>, supersedes: Option<VersionId>)
    requires Priced(job) && RecordsOf(job) == Ok(rs)
    ensures Carries(CalculationFor(job, rs, supersedes), rs) && Shared(CalculationFor(job, rs, supersedes), rs)
  {
    SplitConserves(job);
    var s := SplitOf(job).value;
    SplitApportions(job, s);
    RecordsAreAll(job, s);
    AllRecordsCarry(job, s, supersedes);
    AmountsOfRecords(job, s);
    SharedBy(job, s, CalculationFor(job, rs, supersedes), rs);
  }

  lemma CalculationIsTotalled(job: Job, rs: seq<CostRecord>, supersedes: Option<VersionId>) returns (items: seq<Item>)
    requires Priced(job)
    ensures Totalled(CalculationFor(job, rs, supersedes), items)
  {
    var q := Quantity(job.usage).value;
    QuantityIsTotal(job.usage);
    items := PriceMeans(job.card.terms.pricing, q);
    PricingLaws.PriceTotals(job.card.terms.pricing, q);
  }

  lemma JobIsBilled(job: Job, rs: seq<CostRecord>, supersedes: Option<VersionId>)
    requires Priced(job) && RecordsOf(job) == Ok(rs)
    ensures Billed(CalculationFor(job, rs, supersedes), rs)
  {
    RecordsAreApportioned(job, rs, supersedes);
    var items := CalculationIsTotalled(job, rs, supersedes);
  }

  lemma BuildMeans(q: Request, previous: Option<Calculation>, records: map<AllocationKey, CostRecord>)
    requires ValidRequest(q) && Build(q, previous, records).Ok?
    ensures Quantity(q.usage).Ok? && PriceOf(q.card.terms.pricing, Quantity(q.usage).value).Ok?
    ensures var d, job := Build(q, previous, records).value, PricedJob(q, previous, records);
      RecordsOf(job) == Ok(d.records) && d.calculation == CalculationFor(job, d.records, Superseded(previous))
  {
  }

  lemma BuildIsBilled(q: Request, previous: Option<Calculation>, records: map<AllocationKey, CostRecord>)
    requires ValidRequest(q) && Build(q, previous, records).Ok?
    ensures var d := Build(q, previous, records).value; Billed(d.calculation, d.records) && d.calculation.createdAt == q.occurredAt
  {
    BuildMeans(q, previous, records);
    JobIsBilled(PricedJob(q, previous, records), Build(q, previous, records).value.records, Superseded(previous));
  }

  // ---- over every run ----

  ghost predicate AllStored(s: Costs, rs: seq<CostRecord>) {
    forall r <- rs :: r.id in s.records && s.records[r.id] == r
  }

  ghost predicate StoredAsBilled(s: Costs, c: Calculation) {
    exists rs :: Billed(c, rs) && AllStored(s, rs)
  }

  ghost predicate BillingInv(s: System) {
    && AllBilled(s.store)
    && (forall c <- s.clients :: s.clients[c].Proposed? ==>
          Billed(s.clients[c].proposal.calculation, s.clients[c].proposal.records))
  }

  lemma StaysBilled(s: Costs, t: Costs, c: Calculation)
    requires StoredAsBilled(s, c) && Extends(s, t)
    ensures StoredAsBilled(t, c)
  {
    var rs :| Billed(c, rs) && AllStored(s, rs);
    assert AllStored(t, rs);
  }

  lemma WrittenIsStored(s: Costs, d: Proposal)
    requires ApplyAll(s, Writes(d.calculation, d.records)).error == None
    ensures AllStored(ApplyAll(s, Writes(d.calculation, d.records)).store, d.records)
  {
    var ws := Writes(d.calculation, d.records);
    ApplyAllExtends(s, ws);
    forall r | r in d.records ensures Written(ApplyAll(s, ws).store, WriteRecord(r)) {
      var i :| 0 <= i < |d.records| && d.records[i] == r;
      assert ws[i] in ws;
    }
  }

  ghost predicate AllBilled(s: Costs) {
    forall k {:trigger StoredAsBilled(s, s.calculations[k])} | k in s.calculations :: StoredAsBilled(s, s.calculations[k])
  }

  /** Adding a calculation that is billed keeps all of them billed. */
  lemma AddedIsBilled(s: Costs, t: Costs, c: Calculation)
    requires AllBilled(s) && Extends(s, t) && AddsAtMost(s, t, c) && (t != s ==> StoredAsBilled(t, c))
    ensures AllBilled(t)
  {
    forall k | k in t.calculations ensures StoredAsBilled(t, t.calculations[k]) {
      if k in s.calculations {
        assert StoredAsBilled(s, s.calculations[k]);
        StaysBilled(s, t, s.calculations[k]);
      }
    }
  }

  lemma CommitIsBilled(s: Costs, d: Proposal)
    requires Book(s) && GoodProposal(s, d) && Billed(d.calculation, d.records) && AllBilled(s)
    ensures AllBilled(PersistAtomically(s, d).store)
  {
    var t := PersistAtomically(s, d).store;
    Replay.CommitStores(s, d);
    if t != s {
      WrittenIsStored(s, d);
      assert StoredAsBilled(t, d.calculation);
    }
    AddedIsBilled(s, t, d.calculation);
  }

  lemma ProposeIsBilled(s: System, a: Action)
    requires Inv(s) && BillingInv(s) && a.Propose?
    ensures BillingInv(Step(s, a))
  {
    var p, t := s.PhaseOf(a.client), Step(s, a);
    if t != s {
      assert PhaseInv(s.store, s.clients[a.client]);
      if Build(p.request, a.previous, PreviousRecords(s.store, a.previous)).Ok? {
        BuildIsBilled(p.request, a.previous, PreviousRecords(s.store, a.previous));
      }
    }
  }

  lemma BillingStep(s: System, a: Action)
    requires Inv(s) && BillingInv(s)
    ensures BillingInv(Step(s, a))
  {
    match a
    case Propose(_, _) => ProposeIsBilled(s, a);
    case Commit(c) => CommitStepIsBilled(s, c);
    case _ =>
  }

  lemma CommitStepIsBilled(s: System, c: Client)
    requires Inv(s) && BillingInv(s)
    ensures BillingInv(Step(s, Commit(c)))
  {
    if s.PhaseOf(c).Proposed? {
      assert PhaseInv(s.store, s.clients[c]);
      CommitIsBilled(s.store, s.PhaseOf(c).proposal);
    }
  }

  lemma {:induction false} BillingRun(actions: seq<Action>)
    ensures BillingInv(Run(actions))
  {
    if actions != [] {
      BillingRun(actions[..|actions| - 1]);
      RunInv(actions[..|actions| - 1]);
      BillingStep(Run(actions[..|actions| - 1]), actions[|actions| - 1]);
    }
  }

  /** Over every interleaving: a stored calculation bills exactly the total of its usage, at the
      price its card prescribes, and its stored records share the quantity and the amounts
      out by the weights. */
  lemma EveryCalculationIsBilled(actions: seq<Action>, v: VersionId) returns (rs: seq<CostRecord>)
    requires v in Run(actions).store.calculations
    ensures var s := Run(actions).store; Billed(s.calculations[v], rs) && (set r <- rs) == RecordsIn(s, v)
    ensures Sum(Quantities(rs)) == TotalOf(Run(actions).store.calculations[v].identity.usage.aggregates)
    ensures Sum(Finals(rs)) == Run(actions).store.calculations[v].final
  {
    BillingRun(actions);
    RunInv(actions);
    var s := Run(actions).store;
    var c := s.calculations[v];
    assert StoredAsBilled(s, c) && GoodCalculation(s, c);
    rs :| Billed(c, rs) && AllStored(s, rs);
    OwnRecordsOnly(s, c, rs);
  }

  lemma OwnRecordsOnly(s: Costs, c: Calculation, rs: seq<CostRecord>)
    requires Carries(c, rs) && AllStored(s, rs) && Exact(s, c) && Keyed(s)
    ensures (set r <- rs) == RecordsIn(s, c.id)
  {
    forall r | r in RecordsIn(s, c.id) ensures r in rs {
      var k :| k in s.records && s.records[k] == r;
      var i := PositionOf(rs, k);
      assert rs[i] in rs;
    }
    forall r | r in rs ensures r in RecordsIn(s, c.id) {
      assert r.id in s.records && s.records[r.id] == r;
    }
  }

  /** The quantity that is billed for a fetched usage is the total of the chosen rows. */
  lemma BillsChosenRows(rows: seq<Aggregate>, key: PricingKey, picked: seq<Aggregate>, c: Calculation, rs: seq<CostRecord>)
    requires Billed(c, rs) && Picks(rows, key, picked)
    requires UniqueAggregates(c.identity.usage.aggregates)
    requires forall a :: a in c.identity.usage.aggregates <==> Chosen(rows, key, a)
    ensures c.quantity == TotalOf(picked) == Sum(Quantities(rs))
  {
    PicksAgree(rows, rows, key, picked, c.identity.usage.aggregates);
    TotalPermutes(picked, c.identity.usage.aggregates);
  }

  lemma NewAnswer(s: Costs, q: Request, d: Proposal)
    requires ValidRequest(q) && CheckRequest(q) == None && FindIn(s, IdentityOf(q)) == Ok(None)
    requires Build(q, LatestIn(s, SeriesOf(q)), PreviousRecords(s, LatestIn(s, SeriesOf(q)))) == Ok(d)
    ensures CalculateIn(s, q) == PersistAtomically(s, d)
    ensures CalculateIn(s, q).result.Ok? ==>
      CalculateIn(s, q).result.value == Report(d.calculation, set r <- d.records, false)
  {
  }

  /** What an undisturbed call that is not a replay returns and stores. */
  lemma NewCalculationBills(s: Costs, q: Request) returns (rs: seq<CostRecord>)
    requires Book(s) && ValidRequest(q) && Replay.Priceable(q) && CheckRequest(q) == None
    requires FindIn(s, IdentityOf(q)) == Ok(None)
    ensures CalculateIn(s, q).result.Ok?
    ensures var report := CalculateIn(s, q).result.value;
      && Billed(report.calculation, rs) && report.records == (set r <- rs) && !report.replayed
      && report.calculation.createdAt == q.occurredAt
      && report.calculation.identity == IdentityOf(q) && report.calculation.id.series == SeriesOf(q)
  {
    var previous := LatestIn(s, SeriesOf(q));
    Replay.NewCalculationSucceeds(s, q);
    Replay.NextIsFree(s, SeriesOf(q));
    BuildFailsOnlyOnPrice(q, previous, PreviousRecords(s, previous));
    var d := Build(q, previous, PreviousRecords(s, previous)).value;
    NewAnswer(s, q, d);
    BuildIsGood(s, q, previous);
    BuildIsBilled(q, previous, PreviousRecords(s, previous));
    rs := d.records;
  }
}
