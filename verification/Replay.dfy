/** What a repeated calculation returns, and when identities and series go wrong. */
module Replay {
  import opened Decimals
  import opened RateCards
  import opened Usage
  import opened Rows
  import opened Calculations
  import opened Persistence
  import opened Calculator
  import opened CalculationRuns
  import Lifecycle
  import Listing
  import Pricing

  // ---- results ----

  lemma RecordsReport(s: Costs, c: Calculation, replayed: bool)
    requires Keyed(s) && GoodCalculation(s, c)
    ensures MakeReport(c, RecordsIn(s, c.id), replayed) == Ok(Report(c, RecordsIn(s, c.id), replayed))
  {
    var rs := RecordsIn(s, c.id);
    var ids := set r <- rs :: r.id;
    var some :| some in c.recordIds;
    assert s.records[some] in rs;
    forall id ensures multiset(ids)[id] == c.recordIds[id] {
      if id in c.recordIds {
        assert s.records[id] in rs && s.records[id].id == id;
      }
      if id in ids {
        var r :| r in rs && r.id == id;
      }
    }
    assert multiset(ids) == c.recordIds;
  }

  lemma FindsStored(s: Costs, c: Calculation)
    requires UniqueIdentities(s) && c.id in s.calculations && s.calculations[c.id] == c
    ensures FindIn(s, c.identity) == Ok(Some(c))
  {
    Stored(s, c.id);
    forall d | d in WithIdentity(s, c.identity) ensures d == c { }
  }

  /** A stored identity is replayed: the stored calculation, all of its records, and an
      unchanged store. */
  lemma StoredIsReplayed(s: Costs, q: Request, c: Calculation)
    requires Book(s) && UniqueIdentities(s) && ValidRequest(q) && CheckRequest(q) == None
    requires c.id in s.calculations && s.calculations[c.id] == c && c.identity == IdentityOf(q)
    ensures CalculateIn(s, q) == Answer(s, Ok(Report(c, RecordsIn(s, c.id), true)))
  {
    FindsStored(s, c);
    assert GoodCalculation(s, s.calculations[c.id]);
    RecordsReport(s, c, true);
  }

  lemma {:induction false} StaysReported(actions: seq<CalculationRuns.Action>, i: nat, c: Calculation)
    requires i <= |actions| && var s := CalculationRuns.Run(actions[..i]).store;
      c.id in s.calculations && s.calculations[c.id] == c
    ensures var s, t := CalculationRuns.Run(actions[..i]).store, CalculationRuns.Run(actions).store;
      c.id in t.calculations && t.calculations[c.id] == c && RecordsIn(t, c.id) == RecordsIn(s, c.id)
    decreases |actions| - i
  {
    if i == |actions| {
      assert actions[..i] == actions;
    } else {
      var s := CalculationRuns.Run(actions[..i]);
      CalculationRuns.RunInv(actions[..i]);
      assert actions[..i + 1][..i] == actions[..i];
      assert CalculationRuns.Run(actions[..i + 1]) == CalculationRuns.Step(s, actions[i]);
      CalculationRuns.StepKeepsInv(s, actions[i]);
      SameRecords(s.store, CalculationRuns.Run(actions[..i + 1]).store, c.id);
      StaysReported(actions, i + 1, c);
    }
  }

  /** Over every serial run: once any client has been told of success for some inputs, a call
      with the same inputs, at any later point of the run, returns that very calculation with
      the same records, marked as replayed, and leaves the store unchanged. */
  lemma RepeatedInputsReplay(actions: seq<CalculationRuns.Action>, i: nat, c: Client, q: Request)
    requires SerialRun(actions) && i <= |actions| && ValidRequest(q) && CheckRequest(q) == None
    requires CalculationRuns.Run(actions[..i]).PhaseOf(c).Finished?
    requires CalculationRuns.Run(actions[..i]).PhaseOf(c).result.Ok?
    requires CalculationRuns.Run(actions[..i]).PhaseOf(c).result.value.calculation.identity == IdentityOf(q)
    ensures var store := CalculationRuns.Run(actions).store;
      CalculateIn(store, q)
      == Answer(store, Ok(CalculationRuns.Run(actions[..i]).PhaseOf(c).result.value.(replayed := true)))
  {
    var s := CalculationRuns.Run(actions[..i]);
    var report := s.PhaseOf(c).result.value;
    CalculationRuns.RunInv(actions[..i]);
    assert CalculationRuns.PhaseInv(s.store, s.clients[c]);
    StaysReported(actions, i, report.calculation);
    CalculationRuns.RunInv(actions);
    IdentitiesUnique(actions);
    StoredIsReplayed(CalculationRuns.Run(actions).store, q, report.calculation);
  }

  // ---- the card check ----

  lemma PublishedIsOne(store: Store, c: RateCard, e: RateCard)
    requires Lifecycle.Histories(store) && Lifecycle.Holds(store, c) && Lifecycle.Holds(store, e)
    requires SameCard(c, e) && c.state == Published && e.state == Published && c.revision <= e.revision
    ensures c == e
  {
    var k := IdOf(e);
    var d := Lifecycle.HistoryShape(store, k);
    assert Lifecycle.Sound(store, IdOf(c)) && Lifecycle.Sound(store, k);
    assert k.(revision := c.revision) == IdOf(c) && k.(revision := e.revision) == k;
    assert Lifecycle.At(store, k, c.revision).state == Lifecycle.StateAt(d, c.revision);
    assert Lifecycle.At(store, k, e.revision).state == Lifecycle.StateAt(d, e.revision);
  }

  /** While a card stays published the card check gives the same answer for the same request,
      whatever else is appended. */
  lemma CardCheckStays(before: Store, after: Store, c: RateCard, e: RateCard, wanted: CardRef, snapshot: bool, w: Window)
    requires Lifecycle.Histories(after) && Lifecycle.Grows(before, after)
    requires IsLatest(before, c) && IsLatest(after, e) && SameCard(c, e)
    requires c.state == Published && e.state == Published
    ensures CheckCard(Some(e), wanted, snapshot, w) == CheckCard(Some(c), wanted, snapshot, w)
  {
    assert after[IdOf(c)] == c;
    assert SameCard(after[IdOf(c)], e);
    PublishedIsOne(after, c, e);
  }

  // ---- one undisturbed call ----

  lemma HighestIn(s: Costs, v: VersionId) returns (c: Calculation)
    requires Book(s) && v in s.calculations
    ensures c.id.series == v.series && IsLatestIn(s, c)
    decreases set u <- s.calculations | u.series == v.series && u.revision > v.revision
  {
    if u :| u in s.calculations && u.series == v.series && u.revision > v.revision {
      var above := set x <- s.calculations | x.series == v.series && x.revision > v.revision;
      var next := set x <- s.calculations | x.series == u.series && x.revision > u.revision;
      assert u in above && u !in next && next <= above;
      c := HighestIn(s, u);
    } else {
      c := s.calculations[v];
    }
  }

  /** The revision after the latest is not taken. */
  lemma NextIsFree(s: Costs, series: Series)
    requires Book(s)
    ensures Observed(s, series, LatestIn(s, series))
    ensures VersionId(series, RevisionAfter(LatestIn(s, series))) !in s.calculations
  {
    var v := VersionId(series, RevisionAfter(LatestIn(s, series)));
    if v in s.calculations {
      var c := HighestIn(s, v);
      LatestIsFound(s, c);
    }
  }

  lemma LatestIsFound(s: Costs, c: Calculation)
    requires IsLatestIn(s, c)
    ensures LatestIn(s, c.id.series).Some?
  {
    assert c.id in s.calculations.Keys;
    assert c in s.calculations.Values;
  }

  predicate Priceable(q: Request)
    requires ValidRequest(q)
  {
    Quantity(q.usage).Ok? && Pricing.PriceOf(q.card.terms.pricing, Quantity(q.usage).value).Ok?
  }

  lemma NewCalculationSucceeds(s: Costs, q: Request)
    requires Book(s) && ValidRequest(q) && Priceable(q) && CheckRequest(q) == None
    requires FindIn(s, IdentityOf(q)) == Ok(None)
    ensures CalculateIn(s, q).result.Ok? && !CalculateIn(s, q).result.value.replayed
    ensures CalculateIn(s, q).result.value.calculation.identity == IdentityOf(q)
  {
    var previous := LatestIn(s, SeriesOf(q));
    NextIsFree(s, SeriesOf(q));
    BuildFailsOnlyOnPrice(q, previous, PreviousRecords(s, previous));
    BuildIsGood(s, q, previous);
    var d := Build(q, previous, PreviousRecords(s, previous)).value;
    NewWrite(s, d);
    PersistKeepsBook(s, d);
    var t := PersistAtomically(s, d).store;
    ApplyAllExtends(s, Writes(d.calculation, d.records));
    OwnRecords(t, d);
    assert GoodCalculation(t, t.calculations[d.calculation.id]);
    RecordsReport(t, d.calculation, false);
  }

  /** When an undisturbed call succeeds: exactly when the request is sound and its identity is
      stored once, or not at all and the usage can be priced.  No guard on the records, on the
      calculation, on the write or on the result can fail. */
  lemma CalculateSucceedsExactly(s: Costs, q: Request)
    requires Book(s) && ValidRequest(q)
    ensures CalculateIn(s, q).result.Ok? <==>
      CheckRequest(q) == None &&
      (if FindIn(s, IdentityOf(q)) == Ok(None) then Priceable(q) else FindIn(s, IdentityOf(q)).Ok?)
  {
    if CheckRequest(q) == None {
      var previous := LatestIn(s, SeriesOf(q));
      BuildFailsOnlyOnPrice(q, previous, PreviousRecords(s, previous));
      match FindIn(s, IdentityOf(q))
      case Ok(None) => if Priceable(q) { NewCalculationSucceeds(s, q); }
      case Ok(Some(c)) =>
        assert c in WithIdentity(s, IdentityOf(q));
        assert GoodCalculation(s, s.calculations[c.id]);
        RecordsReport(s, c, true);
      case Err(_) =>
    }
  }

  /** An undisturbed call is a search, a proposal and a commit of the protocol. */
  lemma CalculateIsThreeSteps(s: System, c: Client, q: Request)
    requires CalculationRuns.Inv(s) && s.PhaseOf(c).Idle? && ValidRequest(q)
    ensures var searched := CalculationRuns.Step(s, Search(c, q, FindIn(s.store, IdentityOf(q))));
      var proposed := CalculationRuns.Step(searched, Propose(c, LatestIn(s.store, SeriesOf(q))));
      var t := CalculationRuns.Step(proposed, Commit(c));
      t.store == CalculateIn(s.store, q).store && t.PhaseOf(c) == CalculationRuns.Finished(CalculateIn(s.store, q).result)
  {
    FoundCanBeFound(s.store, IdentityOf(q));
    NextIsFree(s.store, SeriesOf(q));
  }

  lemma FoundCanBeFound(s: Costs, i: Identity)
    requires Keyed(s)
    ensures CanFind(s, i, FindIn(s, i))
  {
    if WithIdentity(s, i) != {} {
      var c :| c in WithIdentity(s, i);
      if d :| d in WithIdentity(s, i) && d != c {
        NotOne(s, i, c, d);
        TwoStored(s, i, c, d);
      } else {
        OneFound(s, i, c);
      }
    }
  }

  lemma NotOne(s: Costs, i: Identity, c: Calculation, d: Calculation)
    requires c in WithIdentity(s, i) && d in WithIdentity(s, i) && c != d
    ensures FindIn(s, i) == Err(Conflict)
  {
  }

  lemma OneFound(s: Costs, i: Identity, c: Calculation)
    requires c in WithIdentity(s, i) && forall d <- WithIdentity(s, i) :: d == c
    ensures FindIn(s, i) == Ok(Some(c))
  {
  }

  lemma TwoStored(s: Costs, i: Identity, c: Calculation, d: Calculation)
    requires Keyed(s) && c in WithIdentity(s, i) && d in WithIdentity(s, i) && c != d
    ensures CanFind(s, i, Err(Conflict))
  {
    var j :| j in s.calculations && s.calculations[j] == c;
    var k :| k in s.calculations && s.calculations[k] == d;
    assert j != k;
  }

  // ---- interleaved searches ----

  lemma NextStep(actions: seq<CalculationRuns.Action>, a: CalculationRuns.Action)
    ensures CalculationRuns.Run(actions + [a]) == CalculationRuns.Step(CalculationRuns.Run(actions), a)
  {
    assert (actions + [a])[..|actions|] == actions;
  }

  lemma Proposes(s: System, c: Client, q: Request, previous: Option<Calculation>) returns (d: Proposal)
    requires Book(s.store) && s.PhaseOf(c) == Searched(q) && ValidRequest(q) && Priceable(q)
    requires Observed(s.store, SeriesOf(q), previous)
    ensures CalculationRuns.Step(s, Propose(c, previous)) == s.With(c, Proposed(d))
    ensures GoodProposal(s.store, d) && d.calculation.identity == IdentityOf(q)
    ensures d.calculation.id == VersionId(SeriesOf(q), RevisionAfter(previous))
  {
    BuildFailsOnlyOnPrice(q, previous, PreviousRecords(s.store, previous));
    BuildIsGood(s.store, q, previous);
    d := Build(q, previous, PreviousRecords(s.store, previous)).value;
  }

  lemma Commits(s: System, c: Client, d: Proposal)
    requires Book(s.store) && s.PhaseOf(c) == Proposed(d) && GoodProposal(s.store, d)
    requires d.calculation.id !in s.store.calculations
    ensures var t := CalculationRuns.Step(s, Commit(c));
      && t.store.calculations == s.store.calculations[d.calculation.id := d.calculation]
      && (forall e :: e != c ==> t.PhaseOf(e) == s.PhaseOf(e))
  {
    NewWrite(s.store, d);
  }

  /** A client that has found nothing proposes after `previous` and commits. */
  lemma ProposeAndCommit(s: System, c: Client, q: Request, previous: Option<Calculation>)
    requires CalculationRuns.Inv(s) && s.PhaseOf(c) == Searched(q) && ValidRequest(q) && Priceable(q)
    requires Observed(s.store, SeriesOf(q), previous)
    requires VersionId(SeriesOf(q), RevisionAfter(previous)) !in s.store.calculations
    ensures var t := CalculationRuns.Step(CalculationRuns.Step(s, Propose(c, previous)), Commit(c));
      var v := VersionId(SeriesOf(q), RevisionAfter(previous));
      && v in t.store.calculations
      && t.store.calculations[v].id == v && t.store.calculations[v].identity == IdentityOf(q)
      && t.store.calculations == s.store.calculations[v := t.store.calculations[v]]
      && (forall e :: e != c ==> t.PhaseOf(e) == s.PhaseOf(e))
  {
    var d := Proposes(s, c, q, previous);
    Commits(s.With(c, Proposed(d)), c, d);
  }

  /** Two clients search for the same identity before either commits; the second then sees the
      first one's calculation as its predecessor.  The identity is stored twice, and from then
      on every search for it is a conflict. */
  lemma InterleavedSearchesStoreTwice(q: Request) returns (actions: seq<CalculationRuns.Action>)
    requires ValidRequest(q) && Priceable(q) && CheckRequest(q) == None
    ensures var s := CalculationRuns.Run(actions).store;
      && VersionId(SeriesOf(q), 1) in s.calculations && VersionId(SeriesOf(q), 2) in s.calculations
      && !UniqueIdentities(s)
      && CalculateIn(s, q) == Answer(s, Err(Conflict))
  {
    var a0: CalculationRuns.Action, a1: CalculationRuns.Action := Search(0, q, Ok(None)), Search(1, q, Ok(None));
    NextStep([], a0);
    NextStep([a0], a1);
    assert [] + [a0] == [a0];
    var both := [a0] + [a1];
    var s := CalculationRuns.Run(both);
    CalculationRuns.RunInv(both);
    assert s == INITIAL.With(0, Searched(q)).With(1, Searched(q));
    ProposeAndCommit(s, 1, q, None);
    NextStep(both, Propose(1, None));
    NextStep(both + [Propose(1, None)], Commit(1));
    var first := both + [Propose(1, None)] + [Commit(1)];
    var t := CalculationRuns.Run(first);
    CalculationRuns.RunInv(first);
    var v, w := VersionId(SeriesOf(q), 1), VersionId(SeriesOf(q), 2);
    var c := t.store.calculations[v];
    ProposeAndCommit(t, 0, q, Some(c));
    NextStep(first, Propose(0, Some(c)));
    NextStep(first + [Propose(0, Some(c))], Commit(0));
    actions := first + [Propose(0, Some(c))] + [Commit(0)];
    CalculationRuns.RunInv(actions);
    TwiceIsConflict(CalculationRuns.Run(actions).store, v, w, q);
  }

  lemma TwiceIsConflict(s: Costs, v: VersionId, w: VersionId, q: Request)
    requires v in s.calculations && w in s.calculations && v != w && Keyed(s)
    requires s.calculations[v].identity == s.calculations[w].identity == IdentityOf(q)
    requires ValidRequest(q) && CheckRequest(q) == None
    ensures !UniqueIdentities(s) && CalculateIn(s, q) == Answer(s, Err(Conflict))
  {
    Stored(s, v);
    Stored(s, w);
    assert s.calculations[v].id != s.calculations[w].id;
  }

  // ---- identity and series ----

  /** Which requests answer each other: those with the same usage, card, window, allocation and
      calculator.  The time of the call and the scope it asked for are not compared. */
  lemma SameIdentityExactly(p: Request, q: Request)
    ensures IdentityOf(p) == IdentityOf(q) <==>
      p.usage == q.usage && p.card == q.card && p.window == q.window && p.spec == q.spec
      && p.calculatorVersion == q.calculatorVersion
  {
  }

  /** Which requests continue each other's revisions: a new version or new terms of the card and
      new weights do, another shape of the allocation does not. */
  lemma SameSeriesExactly(p: Request, q: Request)
    ensures SeriesOf(p) == SeriesOf(q) <==>
      p.scope == q.scope && p.window == q.window && p.card.id == q.card.id
      && p.spec.name == q.spec.name && p.spec.dimensions == q.spec.dimensions
  {
  }

  /** The identity covers the usage input, not the scope the caller asked for: two requests
      with one identity have one series exactly when they asked for the same scope. */
  lemma IdentityDeterminesSeriesExactly(p: Request, q: Request)
    requires IdentityOf(p) == IdentityOf(q)
    ensures SeriesOf(p) == SeriesOf(q) <==> p.scope == q.scope
  {
  }

  /** The provider returned usage of the scope it was asked for, as Fetch does. */
  predicate Faithful(q: Request) { q.usage.scope == q.scope }

  ghost predicate FaithfulRun(actions: seq<CalculationRuns.Action>) {
    forall i :: 0 <= i < |actions| && actions[i].Search? ==> Faithful(actions[i].request)
  }

  ghost predicate InScope(c: Calculation) { c.id.series.scope == c.identity.usage.scope }

  ghost predicate ScopeInv(s: System) {
    && (forall k {:trigger InScope(s.store.calculations[k])} | k in s.store.calculations :: InScope(s.store.calculations[k]))
    && (forall c <- s.clients :: match s.clients[c]
          case Searched(q) => Faithful(q)
          case Proposed(d) => InScope(d.calculation)
          case _ => true)
  }

  lemma ScopeStep(s: System, a: CalculationRuns.Action)
    requires CalculationRuns.Inv(s) && ScopeInv(s) && (a.Search? ==> Faithful(a.request))
    ensures ScopeInv(CalculationRuns.Step(s, a))
  {
    var p, t := s.PhaseOf(a.client), CalculationRuns.Step(s, a);
    if a.Propose? && p.Searched? && t != s {
      assert CalculationRuns.PhaseInv(s.store, s.clients[a.client]);
      if Build(p.request, a.previous, PreviousRecords(s.store, a.previous)).Ok? {
        BuildIsGood(s.store, p.request, a.previous);
      }
    }
    if a.Commit? && p.Proposed? {
      assert CalculationRuns.PhaseInv(s.store, s.clients[a.client]);
      CommitStores(s.store, p.proposal);
      forall k | k in t.store.calculations ensures InScope(t.store.calculations[k]) {
        if k in s.store.calculations { assert InScope(s.store.calculations[k]); }
      }
    }
  }

  lemma CommitStores(s: Costs, d: Proposal)
    requires Book(s) && GoodProposal(s, d)
    ensures AddsAtMost(s, PersistAtomically(s, d).store, d.calculation)
    ensures Extends(s, PersistAtomically(s, d).store)
  {
    PersistKeepsBook(s, d);
    if d.calculation.id !in s.calculations { NewWrite(s, d); }
    else if ApplyAll(s, Writes(d.calculation, d.records)).error == None { RewriteChangesNothing(s, d); }
  }

  lemma {:induction false} ScopeRun(actions: seq<CalculationRuns.Action>)
    requires FaithfulRun(actions)
    ensures ScopeInv(CalculationRuns.Run(actions))
  {
    if actions != [] {
      var before := actions[..|actions| - 1];
      assert FaithfulRun(before) by {
        forall i | 0 <= i < |before| && before[i].Search? ensures Faithful(before[i].request) {
          assert before[i] == actions[i];
        }
      }
      ScopeRun(before);
      CalculationRuns.RunInv(before);
      ScopeStep(CalculationRuns.Run(before), actions[|actions| - 1]);
    }
  }

  /** With providers that return the requested scope, over every run: a calculation found by
      identity belongs to the series of the request, so replay never answers with another
      scope, window, card or allocation shape. */
  lemma ReplayStaysInSeries(actions: seq<CalculationRuns.Action>, q: Request, v: VersionId)
    requires FaithfulRun(actions) && Faithful(q)
    requires v in CalculationRuns.Run(actions).store.calculations
    requires CalculationRuns.Run(actions).store.calculations[v].identity == IdentityOf(q)
    ensures v.series == SeriesOf(q)
  {
    var s := CalculationRuns.Run(actions);
    ScopeRun(actions);
    CalculationRuns.RunInv(actions);
    assert InScope(s.store.calculations[v]) && GoodCalculation(s.store, s.store.calculations[v]);
  }

  /** So identity determines series among everything that is stored. */
  lemma StoredIdentityDeterminesSeries(actions: seq<CalculationRuns.Action>, v: VersionId, w: VersionId)
    requires FaithfulRun(actions)
    requires v in CalculationRuns.Run(actions).store.calculations && w in CalculationRuns.Run(actions).store.calculations
    ensures var s := CalculationRuns.Run(actions).store;
      s.calculations[v].identity == s.calculations[w].identity ==> v.series == w.series
  {
    var s := CalculationRuns.Run(actions);
    ScopeRun(actions);
    CalculationRuns.RunInv(actions);
    assert InScope(s.store.calculations[v]) && GoodCalculation(s.store, s.store.calculations[v]);
    assert InScope(s.store.calculations[w]) && GoodCalculation(s.store, s.store.calculations[w]);
  }

  /** One client that calculates alone stores one calculation. */
  lemma OneCalculation(q: Request) returns (actions: seq<CalculationRuns.Action>)
    requires ValidRequest(q) && Priceable(q) && CheckRequest(q) == None
    ensures var t := CalculationRuns.Run(actions).store; var v := VersionId(SeriesOf(q), 1);
      Book(t) && t.calculations.Keys == {v} && t.calculations[v].identity == IdentityOf(q)
  {
    var searched := SearchedAlone(q);
    actions := ThenTwo(searched, Propose(0, None), Commit(0));
    CalculationRuns.RunInv(actions);
    FirstIsOnly(CalculationRuns.Run(searched), q);
  }

  lemma SearchedAlone(q: Request) returns (actions: seq<CalculationRuns.Action>)
    requires ValidRequest(q) && CheckRequest(q) == None
    ensures var s := CalculationRuns.Run(actions);
      CalculationRuns.Inv(s) && s.store == EMPTY && s.PhaseOf(0) == Searched(q)
  {
    var a: CalculationRuns.Action := Search(0, q, Ok(None));
    NextStep([], a);
    actions := [] + [a];
    CalculationRuns.RunInv(actions);
  }

  lemma FirstIsOnly(s: System, q: Request)
    requires CalculationRuns.Inv(s) && s.store == EMPTY && s.PhaseOf(0) == Searched(q)
    requires ValidRequest(q) && Priceable(q)
    ensures var t := CalculationRuns.Step(CalculationRuns.Step(s, Propose(0, None)), Commit(0)).store;
      var v := VersionId(SeriesOf(q), 1); t.calculations.Keys == {v} && t.calculations[v].identity == IdentityOf(q)
  {
    ProposeAndCommit(s, 0, q, None);
  }

  lemma ThenTwo(actions: seq<CalculationRuns.Action>, a: CalculationRuns.Action, b: CalculationRuns.Action)
    returns (all: seq<CalculationRuns.Action>)
    ensures CalculationRuns.Run(all) == CalculationRuns.Step(CalculationRuns.Step(CalculationRuns.Run(actions), a), b)
  {
    NextStep(actions, a);
    NextStep(actions + [a], b);
    all := actions + [a] + [b];
  }

  /** Without that, a request for one scope is answered with the calculation of another. */
  lemma UnfaithfulReplay(q: Request, other: Name) returns (actions: seq<CalculationRuns.Action>)
    requires ValidRequest(q) && Priceable(q) && CheckRequest(q) == None && other != q.scope
    ensures var s := CalculationRuns.Run(actions).store; var p := q.(scope := other);
      && CalculateIn(s, p).result.Ok? && CalculateIn(s, p).result.value.replayed
      && CalculateIn(s, p).result.value.calculation.id.series == SeriesOf(q) != SeriesOf(p)
  {
    actions := OneCalculation(q);
    AnswersOther(CalculationRuns.Run(actions).store, q, other);
  }

  lemma AnswersOther(t: Costs, q: Request, other: Name)
    requires Book(t) && ValidRequest(q) && CheckRequest(q) == None
    requires var v := VersionId(SeriesOf(q), 1); t.calculations.Keys == {v} && t.calculations[v].identity == IdentityOf(q)
    ensures var p := q.(scope := other); var v := VersionId(SeriesOf(q), 1);
      CalculateIn(t, p) == Answer(t, Ok(Report(t.calculations[v], RecordsIn(t, v), true))) && t.calculations[v].id == v
  {
    StoredIsReplayed(t, q.(scope := other), t.calculations[VersionId(SeriesOf(q), 1)]);
  }
}
