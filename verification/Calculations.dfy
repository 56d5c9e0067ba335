/** Calculations and the cost records they are split into.

    Fingerprints and the ids derived from them are the content they are computed from: a
    calculation id is its series with a revision, a cost id is a calculation version with an
    allocation key.  The record ids of a calculation are a multiset: a list kept sorted is
    determined by which ids it holds and how often. */
module Calculations {
  import opened Decimals
  import opened Rows
  import opened RateCards
  import opened Usage
  import Rounding
  import opened Pricing
  import opened Allocation
  import AllocationLaws
  import AllocationAnswers
  import PricingLaws

  /** `sources` stands for the source fingerprints of the weights. */
  datatype Spec = Spec(name: Name, dimensions: seq<Name>, weights: seq<Weight>, sources: seq<Name>)

  datatype CardRef = CardRef(id: Name, version: nat, terms: Terms)

  datatype Series = Series(scope: Name, window: Window, cardId: Name, allocationName: Name,
                           allocationDimensions: seq<Name>)

  datatype VersionId = VersionId(series: Series, revision: nat)

  datatype Identity = Identity(usage: UsageInput, card: CardRef, window: Window, allocation: Spec,
                               calculatorVersion: Name)

  datatype AllocationKey = AllocationKey(spec: Spec, key: nat)

  datatype CostId = CostId(calculation: VersionId, allocation: AllocationKey)

  datatype CostRecord = CostRecord(id: CostId, calculation: VersionId, usage: UsageInput, card: CardRef,
                                   quantity: int, preAdjustment: int, adjustments: seq<Adjustment>,
                                   final: int, allocation: AllocationKey, occurredAt: int,
                                   calculatorVersion: Name, supersedes: Option<CostId>)

  datatype Calculation = Calculation(id: VersionId, identity: Identity, quantity: int, preAdjustment: int,
                                     adjustmentTotal: int, final: int, createdAt: int,
                                     recordIds: multiset<CostId>, supersedes: Option<VersionId>)

  /** The CostRecordV1 constructor. */
  function MakeRecord(r: CostRecord): Result<CostRecord> {
    if r.calculation.revision < 1 || r.quantity < 0 then Err(InvalidCost)
    else if r.preAdjustment + AdjustmentTotal(r.adjustments) != r.final || r.final < 0 then Err(InvalidCost)
    else Ok(r)
  }

  /** The CalculationV1 constructor. */
  function MakeCalculation(c: Calculation): Result<Calculation> {
    if c.id.revision < 1 || c.quantity < 0 then Err(InvalidCost)
    else if c.preAdjustment + c.adjustmentTotal != c.final || c.final < 0 then Err(InvalidCost)
    else if c.recordIds == multiset{} || exists id <- c.recordIds :: c.recordIds[id] > 1 then Err(InvalidCost)
    else Ok(c)
  }

  function IdOfRecord(r: CostRecord): CostId { r.id }

  function RecordIds(rs: seq<CostRecord>): seq<CostId> {
    seq(|rs|, i requires 0 <= i < |rs| => rs[i].id)
  }

  function Finals(rs: seq<CostRecord>): (s: seq<int>) ensures |s| == |rs| {
    seq(|rs|, i requires 0 <= i < |rs| => rs[i].final)
  }

  function PreAdjustments(rs: seq<CostRecord>): (s: seq<int>) ensures |s| == |rs| {
    seq(|rs|, i requires 0 <= i < |rs| => rs[i].preAdjustment)
  }

  function AdjustmentTotals(rs: seq<CostRecord>): (s: seq<int>) ensures |s| == |rs| {
    seq(|rs|, i requires 0 <= i < |rs| => AdjustmentTotal(rs[i].adjustments))
  }

  function Quantities(rs: seq<CostRecord>): (s: seq<int>) ensures |s| == |rs| {
    seq(|rs|, i requires 0 <= i < |rs| => rs[i].quantity)
  }

  /** The checks persist_calculation makes before it writes. */
  function PersistGuard(c: Calculation, rs: seq<CostRecord>): Option<Error> {
    if rs == [] then Some(InvalidCost)
    else if multiset(RecordIds(rs)) != c.recordIds then Some(InvalidCost)
    else if exists r <- rs :: r.calculation != c.id then Some(InvalidCost)
    else if Sum(Finals(rs)) != c.final then Some(InvalidCost)
    else None
  }

  // ---- building the records ----

  /** The arguments of _records. */
  datatype Job = Job(version: VersionId, usage: UsageInput, card: CardRef, price: Price, spec: Spec,
                     occurredAt: int, calculatorVersion: Name, previous: map<AllocationKey, CostRecord>)

  /** A single key keeps the price's adjustments; several keys get one adjustment each, if any. */
  function AdjustmentsFor(job: Job, pre: int, final: int): seq<Adjustment> {
    if |job.spec.weights| == 1 then job.price.adjustments
    else if final - pre != 0 then [Adjustment(Allocated, final - pre)]
    else []
  }

  function RecordFor(job: Job, key: nat, quantity: int, pre: int, final: int): CostRecord {
    var allocation := AllocationKey(job.spec, key);
    var supersedes := if allocation in job.previous then Some(job.previous[allocation].id) else None;
    CostRecord(CostId(job.version, allocation), job.version, job.usage, job.card, quantity, pre,
               AdjustmentsFor(job, pre, final), final, allocation, job.occurredAt,
               job.calculatorVersion, supersedes)
  }

  /** allocation_map: amounts by key; of two equal keys the later would win. */
  function AllocationMap(ws: seq<Weight>, amounts: seq<int>): map<nat, int>
    requires |ws| == |amounts|
  {
    if ws == [] then map[]
    else AllocationMap(ws[..|ws| - 1], amounts[..|ws| - 1])[ws[|ws| - 1].key := amounts[|ws| - 1]]
  }

  /** Looking an amount up by its key finds the amount of that weight. */
  lemma {:induction false} LookupByKey(ws: seq<Weight>, amounts: seq<int>)
    requires |ws| == |amounts| && forall i, j :: 0 <= i < j < |ws| ==> ws[i].key < ws[j].key
    ensures forall i :: 0 <= i < |ws| ==>
      ws[i].key in AllocationMap(ws, amounts) && AllocationMap(ws, amounts)[ws[i].key] == amounts[i]
  {
    if ws != [] { LookupByKey(ws[..|ws| - 1], amounts[..|ws| - 1]); }
  }

  datatype Split = Split(finals: seq<int>, pres: seq<int>, quantities: seq<int>)

  predicate SplitFits(job: Job, s: Split) {
    |s.finals| == |job.spec.weights| && |s.pres| == |job.spec.weights| && |s.quantities| == |job.spec.weights|
  }

  /** The three allocations, in the order in which _records makes them. */
  function SplitOf(job: Job): (r: Result<Split>)
    requires Sum(Weights(job.spec.weights)) > 0
    ensures r.Ok? ==> SplitFits(job, r.value)
  {
    var scale := job.card.terms.pricing.rounding.currencyScale;
    var finals :- AllocationOf(PRECISION, job.price.final, job.spec.weights, scale);
    var pres :- AllocationOf(PRECISION, job.price.preAdjustment, job.spec.weights, scale);
    var quantity :- Quantity(job.usage);
    var quantities :- AllocationOf(PRECISION, quantity, job.spec.weights, 18);
    Ok(Split(finals, pres, quantities))
  }

  function Append(head: seq<CostRecord>, rest: Result<seq<CostRecord>>): Result<seq<CostRecord>> {
    match rest
    case Ok(rs) => Ok(head + rs)
    case Err(e) => Err(e)
  }

  /** The records of weights `i` and later. */
  function RecordsFrom(job: Job, s: Split, i: nat): Result<seq<CostRecord>>
    requires SplitFits(job, s) && i <= |job.spec.weights|
    decreases |job.spec.weights| - i
  {
    if i == |job.spec.weights| then Ok([]) else
    var r :- MakeRecord(RecordFor(job, job.spec.weights[i].key, s.quantities[i], s.pres[i], s.finals[i]));
    Append([r], RecordsFrom(job, s, i + 1))
  }

  function RecordsOf(job: Job): Result<seq<CostRecord>>
    requires Sum(Weights(job.spec.weights)) > 0
  {
    var s :- SplitOf(job);
    RecordsFrom(job, s, 0)
  }

  /** _records: three allocations looked up by key, and a loop that appends one record per
      weight. */
  method BuildRecords(job: Job) returns (r: Result<seq<CostRecord>>)
    requires ValidSpec(job.spec.weights) && Fits(job.price.final) && Fits(job.price.preAdjustment)
    ensures r == RecordsOf(job)
  {
    var ws := job.spec.weights;
    var scale := job.card.terms.pricing.rounding.currencyScale;
    var finals :- AllocationAnswers.AllocateAmount(job.price.final, ws, scale);
    var pres :- AllocationAnswers.AllocateAmount(job.price.preAdjustment, ws, scale);
    var quantity :- Quantity(job.usage);
    var quantities :- AllocationAnswers.AllocateAmount(quantity, ws, 18);
    r := AppendRecords(job, Split(finals, pres, quantities));
  }

  /** The loop of _records over the allocation's weights. */
  method AppendRecords(job: Job, s: Split) returns (r: Result<seq<CostRecord>>)
    requires SplitFits(job, s) && ValidSpec(job.spec.weights)
    ensures r == RecordsFrom(job, s, 0)
  {
    var ws := job.spec.weights;
    var finalShares, preShares, quantityShares :=
      AllocationMap(ws, s.finals), AllocationMap(ws, s.pres), AllocationMap(ws, s.quantities);
    LookupByKey(ws, s.finals);
    LookupByKey(ws, s.pres);
    LookupByKey(ws, s.quantities);
    var records: seq<CostRecord> := [];
    AppendNothing(RecordsFrom(job, s, 0));
    for i := 0 to |ws|
      invariant RecordsFrom(job, s, 0) == Append(records, RecordsFrom(job, s, i))
    {
      var key := ws[i].key;
      var record := MakeRecord(RecordFor(job, key, quantityShares[key], preShares[key], finalShares[key]));
      if record.Err? { return Err(record.error); }
      AppendOne(records, record.value, RecordsFrom(job, s, i + 1));
      records := records + [record.value];
    }
    assert records + [] == records;
    return Ok(records);
  }

  lemma AppendNothing(rest: Result<seq<CostRecord>>)
    ensures Append([], rest) == rest
  {
    if rest.Ok? { assert [] + rest.value == rest.value; }
  }

  lemma AppendOne(head: seq<CostRecord>, r: CostRecord, rest: Result<seq<CostRecord>>)
    ensures Append(head, Append([r], rest)) == Append(head + [r], rest)
  {
    if rest.Ok? { assert head + ([r] + rest.value) == (head + [r]) + rest.value; }
  }

  // ---- end-to-end conservation ----

  /** A job whose price is the price of its usage under its card. */
  ghost predicate Priced(job: Job) {
    && job.version.revision >= 1
    && ValidCard(job.card.terms.pricing) && ValidSpec(job.spec.weights)
    && Quantity(job.usage).Ok?
    && PriceOf(job.card.terms.pricing, Quantity(job.usage).value) == Ok(job.price)
  }

  ghost predicate SplitAddsUp(job: Job, s: Split) {
    && SplitFits(job, s)
    && Sum(s.finals) == job.price.final && Sum(s.pres) == job.price.preAdjustment
    && Quantity(job.usage).Ok? && Sum(s.quantities) == Quantity(job.usage).value
    && forall i :: 0 <= i < |job.spec.weights| ==> s.finals[i] >= 0 && s.pres[i] >= 0 && s.quantities[i] >= 0
  }

  /** No allocation is refused, and each adds up to what it splits. */
  lemma SplitConserves(job: Job)
    requires Priced(job)
    ensures SplitOf(job).Ok? && SplitAddsUp(job, SplitOf(job).value)
  {
    var ws, scale := job.spec.weights, job.card.terms.pricing.rounding.currencyScale;
    var quantity := Quantity(job.usage).value;
    PricingLaws.PriceTotals(job.card.terms.pricing, quantity);
    AllocationLaws.AllocationConserves(PRECISION, job.price.final, ws, scale);
    AllocationLaws.AllocationConserves(PRECISION, job.price.preAdjustment, ws, scale);
    assert quantity % Rounding.Quantum(18) == 0;
    AllocationLaws.AllocationConserves(PRECISION, quantity, ws, 18);
  }

  /** The record of weight `i`. */
  function RecordAt(job: Job, s: Split, i: nat): CostRecord
    requires SplitFits(job, s) && i < |job.spec.weights|
  {
    RecordFor(job, job.spec.weights[i].key, s.quantities[i], s.pres[i], s.finals[i])
  }

  function AllRecords(job: Job, s: Split): (rs: seq<CostRecord>)
    requires SplitFits(job, s)
    ensures |rs| == |job.spec.weights|
  {
    seq(|job.spec.weights|, i requires 0 <= i < |job.spec.weights| => RecordAt(job, s, i))
  }

  /** The adjustments of a record account for the difference of its two amounts. */
  lemma AdjustmentsBalance(job: Job, s: Split, i: nat)
    requires Priced(job) && SplitAddsUp(job, s) && i < |job.spec.weights|
    ensures s.pres[i] + AdjustmentTotal(AdjustmentsFor(job, s.pres[i], s.finals[i])) == s.finals[i]
  {
    PricingLaws.PriceTotals(job.card.terms.pricing, Quantity(job.usage).value);
    if |job.spec.weights| == 1 {
      Single(s.finals);
      Single(s.pres);
    } else if s.finals[i] - s.pres[i] != 0 {
      var a := Adjustment(Allocated, s.finals[i] - s.pres[i]);
      assert AdjustmentTotal([a]) == a.amount + AdjustmentTotal([]);
    }
  }

  lemma Single(s: seq<int>)
    requires |s| == 1
    ensures Sum(s) == s[0]
  {
    assert Sum(s) == s[0] + Sum(s[1..]);
  }

  lemma RecordAccepted(job: Job, s: Split, i: nat)
    requires Priced(job) && SplitAddsUp(job, s) && i < |job.spec.weights|
    ensures MakeRecord(RecordAt(job, s, i)) == Ok(RecordAt(job, s, i))
  {
    AdjustmentsBalance(job, s, i);
  }

  /** One step of the loop, when the record is accepted. */
  lemma RecordsStep(job: Job, s: Split, i: nat)
    requires SplitFits(job, s) && i < |job.spec.weights|
    requires MakeRecord(RecordAt(job, s, i)) == Ok(RecordAt(job, s, i))
    requires RecordsFrom(job, s, i + 1) == Ok(AllRecords(job, s)[i + 1..])
    ensures RecordsFrom(job, s, i) == Ok(AllRecords(job, s)[i..])
  {
    assert AllRecords(job, s)[i..] == [RecordAt(job, s, i)] + AllRecords(job, s)[i + 1..];
  }

  lemma {:induction false} LoopAppendsAll(job: Job, s: Split, i: nat)
    requires SplitFits(job, s) && i <= |job.spec.weights|
    requires forall k: nat :: k < |job.spec.weights| ==> MakeRecord(RecordAt(job, s, k)) == Ok(RecordAt(job, s, k))
    ensures RecordsFrom(job, s, i) == Ok(AllRecords(job, s)[i..])
    decreases |job.spec.weights| - i
  {
    if i == |job.spec.weights| {
      assert AllRecords(job, s)[i..] == [];
    } else {
      LoopAppendsAll(job, s, i + 1);
      RecordsStep(job, s, i);
    }
  }

  lemma RecordsAreAll(job: Job, s: Split)
    requires Priced(job) && SplitAddsUp(job, s)
    ensures RecordsFrom(job, s, 0) == Ok(AllRecords(job, s))
  {
    forall k: nat | k < |job.spec.weights| ensures MakeRecord(RecordAt(job, s, k)) == Ok(RecordAt(job, s, k)) {
      RecordAccepted(job, s, k);
    }
    LoopAppendsAll(job, s, 0);
    assert AllRecords(job, s)[0..] == AllRecords(job, s);
  }

  /** The record constructor accepts it, and none of its amounts is negative. */
  ghost predicate Stands(job: Job, r: CostRecord) {
    && MakeRecord(r) == Ok(r) && r.calculation == job.version
    && r.quantity >= 0 && r.preAdjustment >= 0 && r.final >= 0
  }

  /** What the records of a calculation keep of it. */
  ghost predicate Conserves(job: Job, rs: seq<CostRecord>)
    requires Quantity(job.usage).Ok?
  {
    && |rs| == |job.spec.weights|
    && Sum(Quantities(rs)) == Quantity(job.usage).value
    && Sum(PreAdjustments(rs)) == job.price.preAdjustment
    && Sum(AdjustmentTotals(rs)) == AdjustmentTotal(job.price.adjustments)
    && Sum(Finals(rs)) == job.price.final
    && (forall r <- rs :: Stands(job, r))
    && (forall i :: 0 <= i < |rs| ==>
          rs[i].id == CostId(job.version, AllocationKey(job.spec, job.spec.weights[i].key)))
    && DistinctBy(IdOfRecord, rs)
  }

  /** End-to-end conservation: for every usage, card and allocation the records exist, add up
      exactly to the quantity, the amount before adjustment, the adjustments and the final
      amount, and none of them is negative. */
  lemma RecordsConserve(job: Job)
    requires Priced(job) && Quantity(job.usage).Ok?
    ensures RecordsOf(job).Ok? && Conserves(job, RecordsOf(job).value)
  {
    SplitConserves(job);
    var s := SplitOf(job).value;
    RecordsAreAll(job, s);
    var rs := AllRecords(job, s);
    SumsConserve(job, s);
    EachRecordStands(job, s);
    IdsDiffer(job, s);
  }

  lemma EachRecordStands(job: Job, s: Split)
    requires Priced(job) && SplitAddsUp(job, s)
    ensures forall r <- AllRecords(job, s) :: Stands(job, r)
  {
    var rs := AllRecords(job, s);
    forall r | r in rs ensures Stands(job, r) {
      var i :| 0 <= i < |rs| && rs[i] == r;
      RecordAccepted(job, s, i);
    }
  }

  lemma SumsConserve(job: Job, s: Split)
    requires Priced(job) && SplitAddsUp(job, s)
    ensures var rs := AllRecords(job, s);
      && Sum(Quantities(rs)) == Quantity(job.usage).value
      && Sum(PreAdjustments(rs)) == job.price.preAdjustment
      && Sum(AdjustmentTotals(rs)) == AdjustmentTotal(job.price.adjustments)
      && Sum(Finals(rs)) == job.price.final
  {
    var rs := AllRecords(job, s);
    assert Quantities(rs) == s.quantities && PreAdjustments(rs) == s.pres && Finals(rs) == s.finals;
    var pres, adjustments, finals := PreAdjustments(rs), AdjustmentTotals(rs), Finals(rs);
    forall i | 0 <= i < |rs| ensures finals[i] == pres[i] + adjustments[i] {
      AdjustmentsBalance(job, s, i);
    }
    SumAdd(pres, adjustments, finals);
    PricingLaws.PriceTotals(job.card.terms.pricing, Quantity(job.usage).value);
  }

  lemma IdsDiffer(job: Job, s: Split)
    requires ValidSpec(job.spec.weights) && SplitFits(job, s)
    ensures DistinctBy(IdOfRecord, AllRecords(job, s))
  {
  }

  /** The calculation that goes with the records. */
  function CalculationFor(job: Job, rs: seq<CostRecord>, supersedes: Option<VersionId>): Calculation
    requires Quantity(job.usage).Ok?
  {
    var identity := Identity(job.usage, job.card, job.version.series.window, job.spec, job.calculatorVersion);
    Calculation(job.version, identity, Quantity(job.usage).value, job.price.preAdjustment,
                AdjustmentTotal(job.price.adjustments), job.price.final, job.occurredAt,
                multiset(RecordIds(rs)), supersedes)
  }

  /** No guard fires on what calculate builds: the calculation is accepted, may be persisted
      with its records, and makes a result. */
  lemma NoGuardFires(job: Job, supersedes: Option<VersionId>)
    requires Priced(job) && Quantity(job.usage).Ok?
    ensures RecordsOf(job).Ok?
    ensures var c := CalculationFor(job, RecordsOf(job).value, supersedes);
      MakeCalculation(c) == Ok(c) && PersistGuard(c, RecordsOf(job).value) == None
  {
    RecordsConserve(job);
    PricingLaws.PriceTotals(job.card.terms.pricing, Quantity(job.usage).value);
    var rs := RecordsOf(job).value;
    var ids := RecordIds(rs);
    DistinctIds(rs);
    assert |ids| > 0;
    assert ids[0] in multiset(ids);
  }

  // ---- what the guard lets through ----

  lemma DistinctIds(rs: seq<CostRecord>)
    requires DistinctBy(IdOfRecord, rs)
    ensures forall id :: multiset(RecordIds(rs))[id] <= 1
  {
    var ids := RecordIds(rs);
    assert DistinctBy((x: CostId) => x, ids) by {
      forall i, j | 0 <= i < j < |ids| ensures ids[i] != ids[j] { assert IdOfRecord(rs[i]) != IdOfRecord(rs[j]); }
    }
    forall id ensures multiset(ids)[id] <= 1 { OccursOnce(ids, (x: CostId) => x, id); }
  }

  lemma OccursTwice(ids: seq<CostId>, i: nat, j: nat)
    requires i < j < |ids| && ids[i] == ids[j]
    ensures multiset(ids)[ids[i]] >= 2
  {
    assert ids == ids[..i] + [ids[i]] + ids[i + 1..j] + [ids[j]] + ids[j + 1..];
  }

  lemma IdsListed(rs: seq<CostRecord>, id: CostId)
    ensures id in multiset(RecordIds(rs)) <==> exists r :: r in rs && r.id == id
  {
    var ids := RecordIds(rs);
    if id in multiset(ids) {
      var i :| 0 <= i < |ids| && ids[i] == id;
      assert rs[i] in rs && rs[i].id == id;
    }
    if r :| r in rs && r.id == id {
      var i :| 0 <= i < |rs| && rs[i] == r;
      assert ids[i] == id;
    }
  }

  /** The records list every id of the calculation once and no other, are of its version, and
      add up to its final amount. */
  ghost predicate Accounts(c: Calculation, rs: seq<CostRecord>) {
    ListsIds(c.recordIds, rs) && (forall r <- rs :: r.calculation == c.id) && Sum(Finals(rs)) == c.final
  }

  ghost predicate ListsIds(ids: multiset<CostId>, rs: seq<CostRecord>) {
    DistinctBy(IdOfRecord, rs) && forall id :: id in ids <==> exists r :: r in rs && r.id == id
  }

  lemma IdsAgreeExactly(ids: multiset<CostId>, rs: seq<CostRecord>)
    requires forall id :: ids[id] <= 1
    ensures multiset(RecordIds(rs)) == ids <==> ListsIds(ids, rs)
  {
    var listed := RecordIds(rs);
    forall id ensures id in multiset(listed) <==> exists r :: r in rs && r.id == id { IdsListed(rs, id); }
    if multiset(listed) == ids {
      forall i, j | 0 <= i < j < |rs| ensures IdOfRecord(rs[i]) != IdOfRecord(rs[j]) {
        if listed[i] == listed[j] { OccursTwice(listed, i, j); }
      }
    }
    if ListsIds(ids, rs) {
      DistinctIds(rs);
      assert forall id :: multiset(listed)[id] == ids[id];
    }
  }

  /** Exactly the records that account for a calculation may be written with it. */
  lemma GuardPassesExactly(c: Calculation, rs: seq<CostRecord>)
    requires MakeCalculation(c) == Ok(c)
    ensures PersistGuard(c, rs) == None <==> Accounts(c, rs)
  {
    IdsAgreeExactly(c.recordIds, rs);
    assert rs == [] ==> multiset(RecordIds(rs)) == multiset{};
  }
}
