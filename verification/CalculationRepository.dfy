/** The calculation half of CostRepository and the calculate call, over append-only lists of
    rows, one caller at a time. */
module CalculationRepository {
  import opened Decimals
  import opened Rows
  import opened RateCards
  import opened Usage
  import opened Calculations
  import opened Persistence
  import opened Calculator
  import Allocation
  import Pricing
  import PricingLaws
  import Replay
  import Repository
  import Calls

  const PAGE: nat := 500

  function IdOfCalculation(c: Calculation): VersionId { c.id }

  function RevisionOfCalculation(c: Calculation): nat { c.id.revision }

  /** Whether every calculation that was found is the first one. */
  method AllSame(values: seq<Calculation>, first: Calculation) returns (same: bool)
    requires values != [] && values[0] == first
    ensures same <==> forall v <- values :: v == first
  {
    for i := 1 to |values|
      invariant forall j :: 0 <= j < i ==> values[j] == first
    {
      assert values[i] in values;
      if values[i] != first { return false; }
    }
    return true;
  }

  class CostStore {
    /** The resources, in the order of insertion. */
    var calculations: seq<Calculation>
    var records: seq<CostRecord>
    /** Whether the executor offers a transaction. */
    const transactional: bool

    ghost function Contents(): Costs reads this {
      Costs(Indexed(records, IdOfRecord), Indexed(calculations, IdOfCalculation))
    }

    ghost predicate Valid() reads this {
      DistinctBy(IdOfRecord, records) && DistinctBy(IdOfCalculation, calculations)
    }

    constructor (transactional: bool)
      ensures Valid() && Contents() == EMPTY && this.transactional == transactional
    {
      calculations, records := [], [];
      this.transactional := transactional;
    }

    /** find_calculation. */
    method FindCalculation(identity: Identity) returns (r: Result<Option<Calculation>>)
      requires Valid()
      ensures r == FindIn(Contents(), identity)
    {
      var values := Scan(Select(calculations, (c: Calculation) => c.identity == identity), PAGE);
      FoundAreStored(calculations, records, identity, values);
      if values == [] { return Ok(None); }
      var first := values[0];
      var same := AllSame(values, first);
      FindMeans(Contents(), identity, values);
      return if same then Ok(Some(first)) else Err(Conflict);
    }

    /** latest_calculation. */
    method LatestCalculation(series: Series) returns (r: Option<Calculation>)
      requires Valid()
      ensures r == LatestIn(Contents(), series)
    {
      var values := Scan(Select(calculations, (c: Calculation) => c.id.series == series), PAGE);
      if values == [] {
        NoneOfSeries(Contents(), calculations, series, values);
        return None;
      }
      var best := Highest(values, RevisionOfCalculation);
      HighestOfSeries(calculations, records, series, values, best);
      return Some(best);
    }

    /** records_for_calculation. */
    method RecordsForCalculation(v: VersionId) returns (rs: seq<CostRecord>)
      requires Valid()
      ensures (set r <- rs) == RecordsIn(Contents(), v) && DistinctBy(IdOfRecord, rs)
    {
      rs := Scan(Select(records, (r: CostRecord) => r.calculation == v), PAGE);
      SelectDistinct(IdOfRecord, records, (r: CostRecord) => r.calculation == v);
      RowsAreStored(records, IdOfRecord);
    }

    /** _put_record: a get, a put, and a second get if the put lost a race. */
    method PutRecord(record: CostRecord) returns (error: Option<Error>)
      requires Valid()
      modifies this
      ensures Valid() && calculations == old(calculations)
      ensures Outcome(Contents(), error) == Apply(old(Contents()), WriteRecord(record))
    {
      var existing := FindRow(records, IdOfRecord, record.id);
      if existing.Some? {
        return if existing.value != record then Some(Conflict) else None;
      }
      var stored;
      records, stored := InsertRow(records, IdOfRecord, record);
      if !stored {
        existing := FindRow(records, IdOfRecord, record.id);
        if existing != Some(record) { return Some(Conflict); }
      }
      return None;
    }

    /** _put_calculation. */
    method PutCalculation(c: Calculation) returns (error: Option<Error>)
      requires Valid()
      modifies this
      ensures Valid() && records == old(records)
      ensures Outcome(Contents(), error) == Apply(old(Contents()), WriteCalculation(c))
    {
      var existing := FindRow(calculations, IdOfCalculation, c.id);
      if existing.Some? {
        return if existing.value != c then Some(Conflict) else None;
      }
      var stored;
      calculations, stored := InsertRow(calculations, IdOfCalculation, c);
      if !stored {
        existing := FindRow(calculations, IdOfCalculation, c.id);
        if existing != Some(c) { return Some(Conflict); }
      }
      return None;
    }

    /** The loop over the records, and the calculation last. */
    method PutAll(c: Calculation, rs: seq<CostRecord>) returns (error: Option<Error>)
      requires Valid()
      modifies this
      ensures Valid()
      ensures Outcome(Contents(), error) == ApplyAll(old(Contents()), Writes(c, rs))
    {
      ghost var ws := Writes(c, rs);
      assert ws[0..] == ws;
      for i := 0 to |rs|
        invariant Valid()
        invariant ApplyAll(old(Contents()), ws) == ApplyAll(Contents(), ws[i..])
      {
        assert ws[i..][0] == ws[i] && ws[i..][1..] == ws[i + 1..];
        error := PutRecord(rs[i]);
        if error.Some? { return; }
      }
      assert ws[|rs|..][0] == ws[|rs|] && ws[|rs|..][1..] == [];
      error := PutCalculation(c);
    }

    /** persist_calculation: inside a transaction a conflict undoes every write; without one
        the writes before it stay. */
    method PersistCalculation(c: Calculation, rs: seq<CostRecord>) returns (error: Option<Error>)
      requires Valid()
      modifies this
      ensures Valid()
      ensures PersistGuard(c, rs).Some? ==> error == PersistGuard(c, rs) && Contents() == old(Contents())
      ensures PersistGuard(c, rs) == None ==>
        var o := ApplyAll(old(Contents()), Writes(c, rs));
        error == o.error && Contents() == if o.error.Some? && transactional then old(Contents()) else o.store
    {
      error := PersistGuard(c, rs);
      if error.Some? { return; }
      var calculationsBefore, recordsBefore := calculations, records;
      error := PutAll(c, rs);
      if error.Some? && transactional {
        calculations, records := calculationsBefore, recordsBefore;
      }
    }

    /** calculate, from its search to its result. */
    method Calculate(q: Request) returns (r: Result<Report>)
      requires Valid() && Book(Contents()) && transactional && ValidRequest(q)
      modifies this
      ensures Valid() && Book(Contents())
      ensures Answer(Contents(), r) == CalculateIn(old(Contents()), q)
    {
      if CheckRequest(q).Some? { return Err(CheckRequest(q).value); }
      var existing :- FindCalculation(IdentityOf(q));
      if existing.Some? {
        var stored := RecordsForCalculation(existing.value.id);
        return MakeReport(existing.value, set r <- stored, true);
      }
      var d :- NewCalculation(q);
      PersistKeepsBook(Contents(), d);
      var error := PersistCalculation(d.calculation, d.records);
      if error.Some? { return Err(error.value); }
      return MakeReport(d.calculation, set r <- d.records, false);
    }

    /** The whole calculate call, from the check of the rate card on. */
    method Call(cards: Repository.RateCardRepository, q: Request, snapshot: bool) returns (r: Result<Report>)
      requires Valid() && Book(Contents()) && transactional && cards.Valid() && Allocation.ValidSpec(q.spec.weights)
      modifies this
      ensures Valid() && Book(Contents())
      ensures Answer(Contents(), r) == Calls.CallIn(cards.Store(), old(Contents()), q, snapshot)
    {
      var latest :- cards.GetRateCard(q.card.id, q.card.version, None);
      var card :- CheckCard(Some(latest), q.card, snapshot, q.window);
      Calls.CheckedIsValid(cards.Store(), q, snapshot);
      r := Calculate(q);
    }

    /** The price, the previous calculation, and the new calculation with its records. */
    method NewCalculation(q: Request) returns (r: Result<Proposal>)
      requires Valid() && Book(Contents()) && ValidRequest(q)
      ensures var previous := LatestIn(Contents(), SeriesOf(q));
        r == Build(q, previous, PreviousRecords(Contents(), previous))
      ensures r.Ok? ==> GoodProposal(Contents(), r.value)
    {
      var quantity :- Quantity(q.usage);
      var price :- Pricing.CalculatePrice(q.card.terms.pricing, quantity);
      var previous := LatestCalculation(SeriesOf(q));
      var before: map<AllocationKey, CostRecord> := map[];
      if previous.Some? {
        var rs := RecordsForCalculation(previous.value.id);
        before := ByAllocation(rs);
        PreviousByAllocation(Contents(), previous.value, rs);
      }
      assert before == PreviousRecords(Contents(), previous);
      PricingLaws.PriceTotals(q.card.terms.pricing, quantity);
      var job := JobFor(q, price, previous, before);
      var rs :- BuildRecords(job);
      var c :- MakeCalculation(CalculationFor(job, rs, Superseded(previous)));
      r := Ok(Proposal(c, rs));
      Replay.NextIsFree(Contents(), SeriesOf(q));
      BuildIsGood(Contents(), q, previous);
    }
  }

  /** The records by allocation key; of two with one key the later wins. */
  function ByAllocation(rs: seq<CostRecord>): map<AllocationKey, CostRecord> {
    if rs == [] then map[]
    else ByAllocation(rs[..|rs| - 1])[rs[|rs| - 1].allocation := rs[|rs| - 1]]
  }

  // ---- lemmas about the reads ----

  function CostsOf(calculations: seq<Calculation>, records: seq<CostRecord>): Costs {
    Costs(Indexed(records, IdOfRecord), Indexed(calculations, IdOfCalculation))
  }

  lemma FoundAreStored(calculations: seq<Calculation>, records: seq<CostRecord>, i: Identity,
                       values: seq<Calculation>)
    requires DistinctBy(IdOfCalculation, calculations)
    requires forall c :: c in values <==> c in calculations && c.identity == i
    ensures WithIdentity(CostsOf(calculations, records), i) == set c <- values
  {
    RowsAreStored(calculations, IdOfCalculation);
    var s := CostsOf(calculations, records);
    forall c | c in values ensures c in WithIdentity(s, i) {
      assert s.calculations[IdOfCalculation(c)] == c;
    }
  }

  lemma FindMeans(s: Costs, i: Identity, values: seq<Calculation>)
    requires WithIdentity(s, i) == (set c <- values) && values != []
    ensures FindIn(s, i) == if forall v <- values :: v == values[0] then Ok(Some(values[0])) else Err(Conflict)
  {
    assert values[0] in WithIdentity(s, i);
    if v :| v in values && v != values[0] { Replay.NotOne(s, i, values[0], v); }
    else { Replay.OneFound(s, i, values[0]); }
  }

  lemma HighestOfSeries(calculations: seq<Calculation>, records: seq<CostRecord>, series: Series,
                        values: seq<Calculation>, best: Calculation)
    requires DistinctBy(IdOfCalculation, calculations)
    requires forall c :: c in values <==> c in calculations && c.id.series == series
    requires best in values && forall c <- values :: RevisionOfCalculation(c) <= RevisionOfCalculation(best)
    ensures LatestIn(CostsOf(calculations, records), series) == Some(best)
  {
    RowsAreStored(calculations, IdOfCalculation);
    var s := CostsOf(calculations, records);
    forall v | v in s.calculations && v.series == series ensures v.revision <= best.id.revision {
      var c := s.calculations[v];
      assert IdOfCalculation(c) == v;
      assert c in values;
      assert RevisionOfCalculation(c) <= RevisionOfCalculation(best);
    }
    assert s.calculations[IdOfCalculation(best)] == best;
    LatestIs(s, best);
  }

  lemma LatestIs(s: Costs, c: Calculation)
    requires IsLatestIn(s, c) && Keyed(s)
    ensures LatestIn(s, c.id.series) == Some(c)
  {
    Replay.LatestIsFound(s, c);
    var d := LatestIn(s, c.id.series).value;
    assert d.id.revision == c.id.revision;
    assert d.id == c.id;
  }

  lemma NoneOfSeries(s: Costs, calculations: seq<Calculation>, series: Series, values: seq<Calculation>)
    requires s.calculations == Indexed(calculations, IdOfCalculation)
    requires forall c :: c in values <==> c in calculations && c.id.series == series
    ensures values == [] ==> LatestIn(s, series) == None
  {
    var latest := LatestIn(s, series);
    assert latest.Some? ==> latest.value in values;
  }

  lemma {:induction false} ByAllocationHolds(rs: seq<CostRecord>)
    requires forall r, q :: r in rs && q in rs && r.allocation == q.allocation ==> r == q
    ensures forall r <- rs :: r.allocation in ByAllocation(rs) && ByAllocation(rs)[r.allocation] == r
    ensures forall a <- ByAllocation(rs) :: ByAllocation(rs)[a] in rs && ByAllocation(rs)[a].allocation == a
  {
    if rs != [] {
      ByAllocationHolds(rs[..|rs| - 1]);
      assert rs == rs[..|rs| - 1] + [rs[|rs| - 1]];
    }
  }

  predicate BelongsTo(previous: Calculation, r: CostRecord) {
    r.calculation == previous.id && r.id == CostId(previous.id, r.allocation)
  }

  /** The dictionary of the previous records, whatever order they were read in. */
  lemma PreviousByAllocation(s: Costs, previous: Calculation, rs: seq<CostRecord>)
    requires Book(s) && (set r <- rs) == RecordsIn(s, previous.id)
    ensures ByAllocation(rs) == PreviousRecords(s, Some(previous))
  {
    forall r | r in rs ensures r.id in s.records && s.records[r.id] == r && BelongsTo(previous, r) {
      assert r in RecordsIn(s, previous.id);
      var k :| k in s.records && s.records[k] == r && r.calculation == previous.id;
      assert GoodRecord(s, s.records[k]);
    }
    ByAllocationHolds(rs);
    var m, p := ByAllocation(rs), PreviousRecords(s, Some(previous));
    forall a ensures a in m <==> a in p {
      if a in p {
        var k := CostId(previous.id, a);
        assert k in s.records && s.records[k].calculation == previous.id;
        assert s.records[k] in RecordsIn(s, previous.id);
        assert GoodRecord(s, s.records[k]);
        assert s.records[k] in rs && s.records[k].allocation == a;
      }
      if a in m {
        assert m[a] in rs;
        assert BelongsTo(previous, m[a]);
      }
    }
    forall a | a in m ensures m[a] == p[a] {
      assert m[a] in rs && BelongsTo(previous, m[a]);
    }
  }
}
