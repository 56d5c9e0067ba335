/** CostCalculator.calculate as one decision over the stored calculations, and what the stored
    calculations keep when every write is atomic. */
module Calculator {
  import opened Decimals
  import opened Rows
  import opened RateCards
  import opened Usage
  import opened Pricing
  import opened Allocation
  import opened Calculations
  import opened Persistence

  datatype Request = Request(scope: Name, window: Window, usage: UsageInput, card: CardRef, spec: Spec,
                             occurredAt: int, calculatorVersion: Name)

  /** _card: `latest` is the card's current snapshot; `snapshot` says that the caller passed a
      whole card and not a reference. */
  function CheckCard(latest: Option<RateCard>, wanted: CardRef, snapshot: bool, w: Window): Result<CardRef> {
    match latest
    case None => Err(MissingRateCard)
    case Some(c) =>
      if CardRef(c.id, c.version, c.terms) != wanted then
        Err(if snapshot then InvalidCost else MissingRateCard)
      else if c.state != Published then Err(InvalidCost)
      else if !Covers(c.terms, w) then Err(InvalidCost)
      else Ok(wanted)
  }

  function CheckRequest(q: Request): Option<Error> {
    if q.usage.meterId != q.card.terms.key.meterId || q.usage.meterVersion != q.card.terms.key.meterVersion
    then Some(UnitMismatch)
    else if q.occurredAt < q.window.end then Some(InvalidCost)
    else None
  }

  function SeriesOf(q: Request): Series {
    Series(q.scope, q.window, q.card.id, q.spec.name, q.spec.dimensions)
  }

  function IdentityOf(q: Request): Identity {
    Identity(q.usage, q.card, q.window, q.spec, q.calculatorVersion)
  }

  /** What the constructors of a request's parts guarantee. */
  predicate ValidRequest(q: Request) {
    ValidCard(q.card.terms.pricing) && ValidSpec(q.spec.weights)
  }

  // ---- reads ----

  ghost function WithIdentity(s: Costs, i: Identity): set<Calculation> {
    set k <- s.calculations | s.calculations[k].identity == i :: s.calculations[k]
  }

  /** find_calculation: stored calculations differ in their version, so two with the same
      identity are a conflict. */
  ghost function FindIn(s: Costs, i: Identity): Result<Option<Calculation>> {
    if WithIdentity(s, i) == {} then Ok(None)
    else if c :| c in WithIdentity(s, i) && forall d <- WithIdentity(s, i) :: d == c then Ok(Some(c))
    else Err(Conflict)
  }

  ghost predicate IsLatestIn(s: Costs, c: Calculation) {
    && c.id in s.calculations && s.calculations[c.id] == c
    && forall v <- s.calculations :: v.series == c.id.series ==> v.revision <= c.id.revision
  }

  /** latest_calculation. */
  ghost function LatestIn(s: Costs, series: Series): Option<Calculation> {
    if c :| c in s.calculations.Values && c.id.series == series && IsLatestIn(s, c) then Some(c) else None
  }

  function RevisionAfter(previous: Option<Calculation>): nat {
    if previous.None? then 1 else previous.value.id.revision + 1
  }

  /** The previous calculation's records by allocation key. */
  function PreviousRecords(s: Costs, previous: Option<Calculation>): map<AllocationKey, CostRecord> {
    map k <- s.records |
      previous.Some? && k.calculation == previous.value.id && s.records[k].calculation == previous.value.id
      :: k.allocation := s.records[k]
  }

  // ---- the new calculation ----

  datatype Proposal = Proposal(calculation: Calculation, records: seq<CostRecord>)

  function JobFor(q: Request, price: Price, previous: Option<Calculation>,
                  records: map<AllocationKey, CostRecord>): Job
  {
    Job(VersionId(SeriesOf(q), RevisionAfter(previous)), q.usage, q.card, price, q.spec, q.occurredAt,
        q.calculatorVersion, records)
  }

  function Superseded(previous: Option<Calculation>): Option<VersionId> {
    if previous.None? then None else Some(previous.value.id)
  }

  /** From the price to the calculation and its records. */
  function Build(q: Request, previous: Option<Calculation>, records: map<AllocationKey, CostRecord>): Result<Proposal>
    requires ValidCard(q.card.terms.pricing) && Sum(Weights(q.spec.weights)) > 0
  {
    var quantity :- Quantity(q.usage);
    var price :- PriceOf(q.card.terms.pricing, quantity);
    var job := JobFor(q, price, previous, records);
    var rs :- RecordsOf(job);
    var c :- MakeCalculation(CalculationFor(job, rs, Superseded(previous)));
    Ok(Proposal(c, rs))
  }

  datatype Report = Report(calculation: Calculation, records: set<CostRecord>, replayed: bool)

  /** The CostCalculationResult constructor. */
  function MakeReport(c: Calculation, rs: set<CostRecord>, replayed: bool): Result<Report> {
    if rs == {} || multiset(set r <- rs :: r.id) != c.recordIds then Err(InvalidCost)
    else Ok(Report(c, rs, replayed))
  }

  datatype Answer = Answer(store: Costs, result: Result<Report>)

  /** persist_calculation inside a transaction: all of its writes or none. */
  function PersistAtomically(s: Costs, d: Proposal): Answer {
    if PersistGuard(d.calculation, d.records).Some? then Answer(s, Err(PersistGuard(d.calculation, d.records).value))
    else
      var o := ApplyAll(s, Writes(d.calculation, d.records));
      if o.error.Some? then Answer(s, Err(o.error.value))
      else Answer(o.store, MakeReport(d.calculation, set r <- d.records, false))
  }

  /** calculate, after its card check. */
  ghost function CalculateIn(s: Costs, q: Request): Answer
    requires ValidRequest(q)
  {
    if CheckRequest(q).Some? then Answer(s, Err(CheckRequest(q).value))
    else match FindIn(s, IdentityOf(q))
      case Err(e) => Answer(s, Err(e))
      case Ok(Some(c)) => Answer(s, MakeReport(c, RecordsIn(s, c.id), true))
      case Ok(None) =>
        var previous := LatestIn(s, SeriesOf(q));
        match Build(q, previous, PreviousRecords(s, previous))
        case Err(e) => Answer(s, Err(e))
        case Ok(d) => PersistAtomically(s, d)
  }

  // ---- what every stored calculation keeps ----

  /** The series and the identity speak of the same window, card and allocation. */
  predicate Agrees(c: Calculation) {
    && c.id.series.window == c.identity.window && c.id.series.cardId == c.identity.card.id
    && c.id.series.allocationName == c.identity.allocation.name
    && c.id.series.allocationDimensions == c.identity.allocation.dimensions
  }

  /** Revision 1 supersedes nothing; a later one supersedes exactly the one before it, which
      is stored. */
  predicate Chained(s: Costs, c: Calculation) {
    if c.id.revision <= 1 then c.supersedes == None && c.id.revision == 1
    else
      var prior := c.id.(revision := c.id.revision - 1);
      c.supersedes == Some(prior) && prior in s.calculations
  }

  predicate OwnId(r: CostRecord) { r.id == CostId(r.calculation, r.allocation) }

  /** A record supersedes the record of the previous revision with the same allocation key, if
      there is one, and nothing else. */
  predicate RecordChained(s: Costs, r: CostRecord) {
    r.supersedes ==
      if r.calculation.revision <= 1 then None
      else
        var prior := CostId(r.calculation.(revision := r.calculation.revision - 1), r.allocation);
        if prior in s.records then Some(prior) else None
  }

  ghost predicate GoodProposal(s: Costs, d: Proposal) {
    && PersistGuard(d.calculation, d.records) == None
    && MakeCalculation(d.calculation) == Ok(d.calculation)
    && DistinctBy(IdOfRecord, d.records) && (forall r <- d.records :: OwnId(r) && RecordChained(s, r))
    && Agrees(d.calculation) && Chained(s, d.calculation)
  }

  ghost predicate GoodCalculation(s: Costs, c: Calculation) {
    Agrees(c) && Chained(s, c) && Exact(s, c) && MakeCalculation(c) == Ok(c)
  }

  ghost predicate GoodRecord(s: Costs, r: CostRecord) {
    OwnId(r) && r.calculation in s.calculations && RecordChained(s, r)
  }

  /** The triggers keep the solver from walking a chain of revisions on its own. */
  ghost predicate Book(s: Costs) {
    && Keyed(s)
    && (forall k {:trigger GoodRecord(s, s.records[k])} | k in s.records :: GoodRecord(s, s.records[k]))
    && (forall k {:trigger GoodCalculation(s, s.calculations[k])} | k in s.calculations ::
          GoodCalculation(s, s.calculations[k]))
  }

  /** `previous` is a stored calculation of the series, or none. */
  predicate Observed(s: Costs, series: Series, previous: Option<Calculation>) {
    previous.Some? ==>
      previous.value.id.series == series && previous.value.id in s.calculations
      && s.calculations[previous.value.id] == previous.value
  }

  /** What Build makes from a stored previous calculation, or from none, may be persisted. */
  lemma BuildIsGood(s: Costs, q: Request, previous: Option<Calculation>)
    requires ValidRequest(q) && Book(s) && Observed(s, SeriesOf(q), previous)
    requires Build(q, previous, PreviousRecords(s, previous)).Ok?
    ensures GoodProposal(s, Build(q, previous, PreviousRecords(s, previous)).value)
    ensures var c := Build(q, previous, PreviousRecords(s, previous)).value.calculation;
      c.id == VersionId(SeriesOf(q), RevisionAfter(previous)) && c.identity == IdentityOf(q)
  {
    var job := PricedJob(q, previous, PreviousRecords(s, previous));
    if previous.Some? { assert GoodCalculation(s, previous.value); }
    NoGuardFires(job, Superseded(previous));
    SameIdentity(q, job, RecordsOf(job).value, Superseded(previous));
    assert DistinctBy(IdOfRecord, RecordsOf(job).value) by { RecordsConserve(job); }
    ProposalIsGood(s, job, RecordsOf(job).value, previous);
  }

  lemma SameIdentity(q: Request, job: Job, rs: seq<CostRecord>, supersedes: Option<VersionId>)
    requires Quantity(q.usage).Ok? && job.usage == q.usage && job.card == q.card && job.spec == q.spec
    requires job.calculatorVersion == q.calculatorVersion && job.version.series == SeriesOf(q)
    ensures CalculationFor(job, rs, supersedes).identity == IdentityOf(q)
    ensures Agrees(CalculationFor(job, rs, supersedes))
  {
  }

  lemma ProposalIsGood(s: Costs, job: Job, rs: seq<CostRecord>, previous: Option<Calculation>)
    requires Book(s) && Priced(job) && RecordsOf(job) == Ok(rs)
    requires job.version.revision == RevisionAfter(previous) && job.previous == PreviousRecords(s, previous)
    requires previous.Some? ==> previous.value.id in s.calculations && previous.value.id.revision >= 1
                                  && job.version.series == previous.value.id.series
    requires var c := CalculationFor(job, rs, Superseded(previous));
      Agrees(c) && PersistGuard(c, rs) == None && MakeCalculation(c) == Ok(c) && DistinctBy(IdOfRecord, rs)
    ensures GoodProposal(s, Proposal(CalculationFor(job, rs, Superseded(previous)), rs))
  {
    BuiltRecordsGood(s, job, previous);
    ChainedVersion(s, CalculationFor(job, rs, Superseded(previous)), previous);
  }

  lemma ChainedVersion(s: Costs, c: Calculation, previous: Option<Calculation>)
    requires c.id.revision == RevisionAfter(previous) && c.supersedes == Superseded(previous)
    requires previous.Some? ==> previous.value.id in s.calculations && previous.value.id.revision >= 1
                                  && c.id.series == previous.value.id.series
    ensures Chained(s, c)
  {
  }

  function PricedJob(q: Request, previous: Option<Calculation>, records: map<AllocationKey, CostRecord>): Job
    requires ValidRequest(q) && Quantity(q.usage).Ok?
    requires PriceOf(q.card.terms.pricing, Quantity(q.usage).value).Ok?
  {
    JobFor(q, PriceOf(q.card.terms.pricing, Quantity(q.usage).value).value, previous, records)
  }

  lemma BuiltRecordsGood(s: Costs, job: Job, previous: Option<Calculation>)
    requires Book(s) && Sum(Weights(job.spec.weights)) > 0 && RecordsOf(job).Ok?
    requires job.version.revision == RevisionAfter(previous) && job.previous == PreviousRecords(s, previous)
    requires previous.Some? ==> previous.value.id.revision >= 1 && job.version.series == previous.value.id.series
    ensures forall r <- RecordsOf(job).value :: OwnId(r) && RecordChained(s, r)
  {
    BuiltRecords(job, SplitOf(job).value, 0);
    forall k | k in s.records ensures OwnId(s.records[k]) { assert GoodRecord(s, s.records[k]); }
    forall r | r in RecordsOf(job).value ensures OwnId(r) && RecordChained(s, r) {
      assert BuiltFrom(job, r);
      ChainedToPrevious(s, previous, r);
    }
  }

  /** The identity and the reference to the previous record that a built record carries. */
  predicate BuiltFrom(job: Job, r: CostRecord) {
    && OwnId(r) && r.calculation == job.version
    && r.supersedes == if r.allocation in job.previous then Some(job.previous[r.allocation].id) else None
  }

  lemma {:induction false} BuiltRecords(job: Job, s: Split, i: nat)
    requires SplitFits(job, s) && i <= |job.spec.weights| && RecordsFrom(job, s, i).Ok?
    ensures forall r <- RecordsFrom(job, s, i).value :: BuiltFrom(job, r)
    decreases |job.spec.weights| - i
  {
    if i < |job.spec.weights| { BuiltRecords(job, s, i + 1); }
  }

  lemma ChainedToPrevious(s: Costs, previous: Option<Calculation>, r: CostRecord)
    requires forall k <- s.records :: s.records[k].id == k && OwnId(s.records[k])
    requires previous.Some? ==> previous.value.id.revision >= 1 && r.calculation.series == previous.value.id.series
    requires r.calculation.revision == RevisionAfter(previous)
    requires var records := PreviousRecords(s, previous);
      r.supersedes == if r.allocation in records then Some(records[r.allocation].id) else None
    ensures RecordChained(s, r)
  {
    var records := PreviousRecords(s, previous);
    if previous.Some? {
      assert r.calculation.(revision := r.calculation.revision - 1) == previous.value.id;
      var prior := CostId(previous.value.id, r.allocation);
      if prior in s.records {
        assert OwnId(s.records[prior]);
        assert r.allocation in records;
      }
    }
  }

  /** A calculation fails only for its quantity or its price, never on its own records. */
  lemma BuildFailsOnlyOnPrice(q: Request, previous: Option<Calculation>, records: map<AllocationKey, CostRecord>)
    requires ValidRequest(q)
    ensures Build(q, previous, records).Ok? <==>
      Quantity(q.usage).Ok? && PriceOf(q.card.terms.pricing, Quantity(q.usage).value).Ok?
  {
    if Quantity(q.usage).Ok? && PriceOf(q.card.terms.pricing, Quantity(q.usage).value).Ok? {
      var job := JobFor(q, PriceOf(q.card.terms.pricing, Quantity(q.usage).value).value, previous, records);
      NoGuardFires(job, Superseded(previous));
    }
  }

  // ---- one atomic write ----

  /** Persisting changes the calculations by at most the one that is written. */
  lemma {:induction false} CalculationsAfter(s: Costs, ws: seq<Write>, k: VersionId)
    requires Keyed(s) && k in ApplyAll(s, ws).store.calculations
    ensures k in s.calculations || exists w :: w in ws && w.WriteCalculation? && w.calculation.id == k
    ensures Keyed(ApplyAll(s, ws).store)
    decreases |ws|
  {
    if ws != [] && Apply(s, ws[0]).error == None {
      if k !in Apply(s, ws[0]).store.calculations {
        CalculationsAfter(Apply(s, ws[0]).store, ws[1..], k);
        var w :| w in ws[1..] && w.WriteCalculation? && w.calculation.id == k;
        assert w in ws;
      } else {
        CalculationsAfter(Apply(s, ws[0]).store, ws[1..], k);
        if k !in s.calculations { assert ws[0] in ws; }
      }
    }
  }

  ghost predicate AllFree(s: Costs, ws: seq<Write>) { forall w <- ws :: Free(s, w) }

  ghost predicate EveryWritten(s: Costs, ws: seq<Write>) { forall w <- ws :: Written(s, w) }

  lemma OwnRecordsWritten(s: Costs, c: Calculation, rs: seq<CostRecord>)
    requires PersistGuard(c, rs) == None && Exact(s, c) && Occupied(s, WriteCalculation(c))
    requires AllFree(s, Writes(c, rs))
    ensures EveryWritten(s, Writes(c, rs))
  {
    var ws := Writes(c, rs);
    forall w | w in ws ensures Written(s, w) {
      var i :| 0 <= i < |ws| && ws[i] == w;
      assert Free(s, w);
      if i < |rs| {
        assert RecordIds(rs)[i] == rs[i].id;
        assert rs[i].id in c.recordIds;
      }
    }
  }

  /** Writing a stored calculation again with the same content changes nothing. */
  lemma RewriteChangesNothing(s: Costs, d: Proposal)
    requires Book(s) && GoodProposal(s, d) && d.calculation.id in s.calculations
    requires ApplyAll(s, Writes(d.calculation, d.records)).error == None
    ensures ApplyAll(s, Writes(d.calculation, d.records)).store == s
    ensures s.calculations[d.calculation.id] == d.calculation
  {
    var ws := Writes(d.calculation, d.records);
    WritesAreDistinct(d.calculation, d.records);
    SucceedsExactly(s, ws);
    assert ws[|d.records|] in ws;
    assert s.calculations[d.calculation.id] == d.calculation by { assert Free(s, ws[|d.records|]); }
    assert GoodCalculation(s, s.calculations[d.calculation.id]);
    OwnRecordsWritten(s, d.calculation, d.records);
    WrittenIsSkipped(s, ws, []);
    assert ws + [] == ws;
  }

  lemma NewWritesAreFree(s: Costs, d: Proposal)
    requires Book(s) && GoodProposal(s, d) && d.calculation.id !in s.calculations
    ensures AllFree(s, Writes(d.calculation, d.records)) && NoOrphans(s, d.calculation)
  {
    var ws, rs := Writes(d.calculation, d.records), d.records;
    forall k | k in s.records ensures OwnId(s.records[k]) && s.records[k].calculation in s.calculations {
      assert GoodRecord(s, s.records[k]);
    }
    forall w | w in ws ensures Free(s, w) {
      var i :| 0 <= i < |ws| && ws[i] == w;
      if i < |rs| {
        assert rs[i] in rs;
        assert rs[i].calculation == d.calculation.id && OwnId(rs[i]);
      }
    }
  }

  /** The calculations after a successful write. */
  lemma CalculationsBecome(s: Costs, c: Calculation, rs: seq<CostRecord>)
    requires Keyed(s) && ApplyAll(s, Writes(c, rs)).error == None && c.id !in s.calculations
    ensures ApplyAll(s, Writes(c, rs)).store.calculations == s.calculations[c.id := c]
  {
    var ws := Writes(c, rs);
    var t := ApplyAll(s, ws).store;
    ApplyAllExtends(s, ws);
    assert ws[|rs|] in ws;
    assert Written(t, ws[|rs|]);
    forall k | k in t.calculations ensures k in s.calculations || k == c.id {
      CalculationsAfter(s, ws, k);
      if k !in s.calculations {
        var w :| w in ws && w.WriteCalculation? && w.calculation.id == k;
      }
    }
  }

  ghost predicate RecordsBecome(s: Costs, t: Costs, c: Calculation) {
    forall k <- t.records :: k in s.records || (OwnId(t.records[k]) && t.records[k].calculation == c.id)
  }

  lemma NewRecordsAreOwn(s: Costs, d: Proposal)
    requires Keyed(s) && GoodProposal(s, d) && ApplyAll(s, Writes(d.calculation, d.records)).error == None
    ensures RecordsBecome(s, ApplyAll(s, Writes(d.calculation, d.records)).store, d.calculation)
  {
    var rs := d.records;
    var ws := Writes(d.calculation, rs);
    var t := ApplyAll(s, ws).store;
    ApplyAllExtends(s, ws);
    forall k | k in t.records && k !in s.records
      ensures OwnId(t.records[k]) && t.records[k].calculation == d.calculation.id
    {
      RecordsAfter(s, ws, k);
      var w :| w in ws && w.WriteRecord? && w.record.id == k;
      var i :| 0 <= i < |ws| && ws[i] == w;
      assert rs[i] in rs && Written(t, w);
    }
  }

  /** A new version is always written, with exactly its own records. */
  lemma NewWrite(s: Costs, d: Proposal)
    requires Book(s) && GoodProposal(s, d) && d.calculation.id !in s.calculations
    ensures ApplyAll(s, Writes(d.calculation, d.records)).error == None
    ensures var t := ApplyAll(s, Writes(d.calculation, d.records)).store;
      Extends(s, t) && Keyed(t) && t.calculations == s.calculations[d.calculation.id := d.calculation]
      && Exact(t, d.calculation) && RecordsBecome(s, t, d.calculation)
  {
    var ws := Writes(d.calculation, d.records);
    NewWritesAreFree(s, d);
    WritesAreDistinct(d.calculation, d.records);
    SucceedsExactly(s, ws);
    ApplyAllExtends(s, ws);
    ExactUnlessOrphans(s, d.calculation, d.records);
    CalculationsBecome(s, d.calculation, d.records);
    CalculationsAfter(s, ws, d.calculation.id);
    NewRecordsAreOwn(s, d);
  }

  /** Adding a new version does not change which record a stored one, or one whose previous
      version is stored, supersedes. */
  lemma ChainStays(s: Costs, t: Costs, c: Calculation, r: CostRecord)
    requires Extends(s, t) && Keyed(t) && RecordsBecome(s, t, c) && c.id !in s.calculations
    requires RecordChained(s, r)
    requires r.calculation.revision > 1 ==>
      r.calculation.(revision := r.calculation.revision - 1) in s.calculations
    ensures RecordChained(t, r)
  {
  }

  lemma OldRecordStaysGood(s: Costs, t: Costs, c: Calculation, r: CostRecord)
    requires Extends(s, t) && Keyed(t) && RecordsBecome(s, t, c) && c.id !in s.calculations
    requires GoodRecord(s, r) && s.calculations[r.calculation].id == r.calculation
    requires Chained(s, s.calculations[r.calculation])
    ensures GoodRecord(t, r)
  {
    ChainStays(s, t, c, r);
  }

  lemma NewRecordIsGood(s: Costs, d: Proposal, k: CostId)
    requires Book(s) && GoodProposal(s, d) && d.calculation.id !in s.calculations
    requires k in ApplyAll(s, Writes(d.calculation, d.records)).store.records && k !in s.records
    ensures var t := ApplyAll(s, Writes(d.calculation, d.records)).store; GoodRecord(t, t.records[k])
  {
    NewWrite(s, d);
    var t := ApplyAll(s, Writes(d.calculation, d.records)).store;
    NewRecordListed(s, d, k);
    assert t.records[k].calculation == d.calculation.id;
    ChainStays(s, t, d.calculation, t.records[k]);
  }

  lemma CalculationsStayGood(s: Costs, t: Costs, c: Calculation)
    requires Book(s) && Extends(s, t) && RecordsBecome(s, t, c) && c.id !in s.calculations
    requires t.calculations == s.calculations[c.id := c] && GoodCalculation(t, c)
    ensures forall k <- t.calculations :: GoodCalculation(t, t.calculations[k])
  {
    forall k | k in t.calculations ensures GoodCalculation(t, t.calculations[k]) {
      if k != c.id { OtherStaysGood(s, t, c, s.calculations[k]); }
    }
  }

  lemma RecordsStayGood(s: Costs, d: Proposal)
    requires Book(s) && GoodProposal(s, d) && d.calculation.id !in s.calculations
    ensures var t := ApplyAll(s, Writes(d.calculation, d.records)).store;
      forall k <- t.records :: GoodRecord(t, t.records[k])
  {
    NewWrite(s, d);
    var t := ApplyAll(s, Writes(d.calculation, d.records)).store;
    forall k | k in t.records ensures GoodRecord(t, t.records[k]) {
      if k in s.records {
        assert GoodRecord(s, s.records[k]);
        assert GoodCalculation(s, s.calculations[s.records[k].calculation]);
        OldRecordStaysGood(s, t, d.calculation, s.records[k]);
      } else {
        NewRecordIsGood(s, d, k);
      }
    }
  }

  lemma PersistKeepsBook(s: Costs, d: Proposal)
    requires Book(s) && GoodProposal(s, d)
    ensures Book(PersistAtomically(s, d).store) && Extends(s, PersistAtomically(s, d).store)
  {
    if d.calculation.id !in s.calculations {
      NewWrite(s, d);
      CalculationsStayGood(s, ApplyAll(s, Writes(d.calculation, d.records)).store, d.calculation);
      RecordsStayGood(s, d);
    } else if ApplyAll(s, Writes(d.calculation, d.records)).error == None {
      RewriteChangesNothing(s, d);
    }
  }

  lemma OtherStaysGood(s: Costs, t: Costs, c: Calculation, e: Calculation)
    requires Extends(s, t) && RecordsBecome(s, t, c) && c.id !in s.calculations && e.id in s.calculations
    requires GoodCalculation(s, e)
    ensures GoodCalculation(t, e)
  {
  }

  lemma NewRecordListed(s: Costs, d: Proposal, k: CostId)
    requires Keyed(s) && GoodProposal(s, d)
    requires k in ApplyAll(s, Writes(d.calculation, d.records)).store.records && k !in s.records
    requires ApplyAll(s, Writes(d.calculation, d.records)).error == None
    ensures ApplyAll(s, Writes(d.calculation, d.records)).store.records[k] in d.records
  {
    var ws := Writes(d.calculation, d.records);
    ApplyAllExtends(s, ws);
    RecordsAfter(s, ws, k);
    var w :| w in ws && w.WriteRecord? && w.record.id == k;
    var i :| 0 <= i < |ws| && ws[i] == w;
    assert Written(ApplyAll(s, ws).store, w);
  }
}
