/** Any number of clients calculating over one store, each write atomic, every read a step of
    its own that may lag behind. */
module CalculationRuns {
  import opened Decimals
  import opened RateCards
  import opened Usage
  import opened Calculations
  import opened Persistence
  import opened Calculator
  import Pricing

  type Client = nat

  datatype Phase =
    | Idle
    | Searched(request: Request)
    | Proposed(proposal: Proposal)
    | Finished(result: Result<Report>)

  datatype System = System(store: Costs, clients: map<Client, Phase>) {
    function PhaseOf(c: Client): Phase { if c in clients then clients[c] else Idle }
    function With(c: Client, p: Phase): System { this.(clients := clients[c := p]) }
  }

  const INITIAL := System(EMPTY, map[])

  datatype Action =
    | Search(client: Client, request: Request, found: Result<Option<Calculation>>)
    | Propose(client: Client, previous: Option<Calculation>)
    | Commit(client: Client)
    | Crash(client: Client)

  /** What find_calculation may answer: nothing, a stored calculation with the identity, or a
      conflict if there are two. */
  predicate CanFind(s: Costs, i: Identity, found: Result<Option<Calculation>>) {
    match found
    case Ok(None) => true
    case Ok(Some(c)) => c.id in s.calculations && s.calculations[c.id] == c && c.identity == i
    case Err(e) =>
      e == Conflict && exists j, k | j in s.calculations && k in s.calculations ::
        j != k && s.calculations[j].identity == i && s.calculations[k].identity == i
  }

  function AfterSearch(s: Costs, q: Request, found: Result<Option<Calculation>>): Phase {
    if CheckRequest(q).Some? then Finished(Err(CheckRequest(q).value))
    else match found
      case Err(e) => Finished(Err(e))
      case Ok(Some(c)) => Finished(MakeReport(c, RecordsIn(s, c.id), true))
      case Ok(None) => Searched(q)
  }

  /** One step of one client; an action that is not possible changes nothing.  The records of
      a calculation that was found never change, so reading them is not a step of its own. */
  function Step(s: System, a: Action): System {
    var p := s.PhaseOf(a.client);
    match a
    case Search(c, q, found) =>
      if (p.Idle? || p.Finished?) && ValidRequest(q) && CanFind(s.store, IdentityOf(q), found) then
        s.With(c, AfterSearch(s.store, q, found))
      else s
    case Propose(c, previous) =>
      if p.Searched? && ValidRequest(p.request) && Observed(s.store, SeriesOf(p.request), previous) then
        match Build(p.request, previous, PreviousRecords(s.store, previous))
        case Err(e) => s.With(c, Finished(Err(e)))
        case Ok(d) => s.With(c, Proposed(d))
      else s
    case Commit(c) =>
      if p.Proposed? then
        var answer := PersistAtomically(s.store, p.proposal);
        System(answer.store, s.clients).With(c, Finished(answer.result))
      else s
    case Crash(c) => s.With(c, Idle)
  }

  function Run(actions: seq<Action>): System {
    if actions == [] then INITIAL
    else Step(Run(actions[..|actions| - 1]), actions[|actions| - 1])
  }

  // ---- the invariant ----

  ghost predicate PhaseInv(s: Costs, p: Phase) {
    match p
    case Idle => true
    case Searched(q) => ValidRequest(q)
    case Proposed(d) => GoodProposal(s, d)
    case Finished(result) => result.Ok? ==>
      var c := result.value.calculation;
      c.id in s.calculations && s.calculations[c.id] == c && result.value.records == RecordsIn(s, c.id)
  }

  ghost predicate Inv(s: System) {
    Book(s.store) && forall c <- s.clients :: PhaseInv(s.store, s.clients[c])
  }

  /** `t` is `s` after one more calculation, or `s` itself. */
  ghost predicate Grown(s: Costs, t: Costs) {
    || t == s
    || exists c: Calculation :: c.id !in s.calculations && Extends(s, t) && Keyed(t) && RecordsBecome(s, t, c)
         && t.calculations == s.calculations[c.id := c]
  }

  lemma PersistGrows(s: Costs, d: Proposal)
    requires Book(s) && GoodProposal(s, d)
    ensures Grown(s, PersistAtomically(s, d).store)
  {
    if d.calculation.id !in s.calculations { NewWrite(s, d); }
    else if ApplyAll(s, Writes(d.calculation, d.records)).error == None { RewriteChangesNothing(s, d); }
  }

  lemma SameRecords(s: Costs, t: Costs, v: VersionId)
    requires Grown(s, t) && v in s.calculations
    ensures RecordsIn(t, v) == RecordsIn(s, v)
  {
    if t != s {
      forall r | r in RecordsIn(t, v) ensures r in RecordsIn(s, v) {
        var k :| k in t.records && t.records[k] == r && t.records[k].calculation == v;
        assert k in s.records;
      }
      forall r | r in RecordsIn(s, v) ensures r in RecordsIn(t, v) {
        var k :| k in s.records && s.records[k] == r && s.records[k].calculation == v;
        assert k in t.records;
      }
    }
  }

  lemma ProposalStaysGood(s: Costs, t: Costs, d: Proposal)
    requires Grown(s, t) && GoodProposal(s, d)
    ensures GoodProposal(t, d)
  {
    if t != s {
      var c: Calculation :| c.id !in s.calculations && Extends(s, t) && Keyed(t) && RecordsBecome(s, t, c);
      forall r | r in d.records ensures OwnId(r) && RecordChained(t, r) {
        ChainStays(s, t, c, r);
      }
    }
  }

  lemma PhaseStays(s: Costs, t: Costs, p: Phase)
    requires Grown(s, t) && PhaseInv(s, p)
    ensures PhaseInv(t, p)
  {
    match p
    case Proposed(d) => ProposalStaysGood(s, t, d);
    case Finished(result) => if result.Ok? { SameRecords(s, t, result.value.calculation.id); }
    case _ =>
  }

  /** The report of a write names the stored calculation and its records. */
  lemma WrittenReport(s: Costs, d: Proposal)
    requires Book(s) && GoodProposal(s, d)
    ensures PhaseInv(PersistAtomically(s, d).store, Finished(PersistAtomically(s, d).result))
  {
    var answer := PersistAtomically(s, d);
    if answer.result.Ok? {
      var ws, t := Writes(d.calculation, d.records), answer.store;
      ApplyAllExtends(s, ws);
      assert ws[|d.records|] in ws;
      PersistKeepsBook(s, d);
      assert GoodCalculation(t, t.calculations[d.calculation.id]);
      OwnRecords(t, d);
    }
  }

  lemma OwnRecords(t: Costs, d: Proposal)
    requires PersistGuard(d.calculation, d.records) == None && Keyed(t) && Exact(t, d.calculation)
    requires EveryWritten(t, Writes(d.calculation, d.records))
    ensures (set r <- d.records) == RecordsIn(t, d.calculation.id)
  {
    var ws := Writes(d.calculation, d.records);
    forall r | r in d.records ensures r in RecordsIn(t, d.calculation.id) {
      var i :| 0 <= i < |d.records| && d.records[i] == r;
      assert ws[i] in ws && Written(t, ws[i]);
      assert t.records[r.id] == r;
    }
    forall r | r in RecordsIn(t, d.calculation.id) ensures r in d.records {
      var k :| k in t.records && t.records[k] == r;
      assert k in d.calculation.recordIds;
      var i := PositionOf(d.records, k);
      assert ws[i] in ws && Written(t, ws[i]);
    }
  }

  lemma StepKeepsInv(s: System, a: Action)
    requires Inv(s)
    ensures Inv(Step(s, a)) && Grown(s.store, Step(s, a).store)
  {
    var p, t := s.PhaseOf(a.client), Step(s, a);
    assert PhaseInv(s.store, p);
    if a.Propose? && p.Searched? && Observed(s.store, SeriesOf(p.request), a.previous) {
      if Build(p.request, a.previous, PreviousRecords(s.store, a.previous)).Ok? {
        BuildIsGood(s.store, p.request, a.previous);
      }
    }
    if a.Commit? && p.Proposed? {
      PersistKeepsBook(s.store, p.proposal);
      PersistGrows(s.store, p.proposal);
      WrittenReport(s.store, p.proposal);
    }
    forall c | c in t.clients ensures PhaseInv(t.store, t.clients[c]) {
      if c != a.client { PhaseStays(s.store, t.store, s.clients[c]); }
    }
  }

  lemma {:induction false} RunInv(actions: seq<Action>)
    ensures Inv(Run(actions))
  {
    if actions != [] {
      RunInv(actions[..|actions| - 1]);
      StepKeepsInv(Run(actions[..|actions| - 1]), actions[|actions| - 1]);
    }
  }

  // ---- series ----

  /** Revisions 1..n are all stored, and each supersedes exactly the one before it. */
  lemma {:induction false} SeriesChain(s: Costs, v: VersionId, r: nat)
    requires Book(s) && v in s.calculations && 1 <= r <= v.revision
    ensures var u := v.(revision := r);
      u in s.calculations && s.calculations[u].id == u
      && s.calculations[u].supersedes == if r == 1 then None else Some(v.(revision := r - 1))
    decreases v.revision - r
  {
    if r < v.revision { SeriesChain(s, v, r + 1); }
    var u := v.(revision := r);
    assert u == v || u == v.(revision := r + 1).(revision := r + 1 - 1);
    if r < v.revision { assert GoodCalculation(s, s.calculations[v.(revision := r + 1)]); }
    assert GoodCalculation(s, s.calculations[u]);
  }

  /** Over every run, with any interleaving: each series has revisions 1..n without gaps, each
      superseding exactly the one before it; the records found for a calculation are exactly
      its own; and each of those supersedes its counterpart in the revision before, if any. */
  lemma EverySeriesIsChained(actions: seq<Action>, v: VersionId, r: nat)
    requires v in Run(actions).store.calculations && 1 <= r <= v.revision
    ensures var s, u := Run(actions).store, v.(revision := r);
      && u in s.calculations && s.calculations[u].id == u
      && s.calculations[u].supersedes == (if r == 1 then None else Some(v.(revision := r - 1)))
      && Exact(s, s.calculations[u])
      && forall k <- s.records :: s.records[k].id == k && RecordChained(s, s.records[k])
  {
    RunInv(actions);
    var s := Run(actions).store;
    SeriesChain(s, v, r);
    assert GoodCalculation(s, s.calculations[v.(revision := r)]);
    forall k | k in s.records ensures RecordChained(s, s.records[k]) { assert GoodRecord(s, s.records[k]); }
  }

  // ---- identities ----

  /** Each calculation identity occurs at most once. */
  ghost predicate UniqueIdentities(s: Costs) {
    forall j, k | j in s.calculations && k in s.calculations ::
      s.calculations[j].identity == s.calculations[k].identity ==> j == k
  }

  /** One commit of a new version keeps identities unique exactly when no stored calculation
      has its identity at that moment. */
  lemma CommitKeepsUniqueExactly(s: Costs, d: Proposal)
    requires Book(s) && GoodProposal(s, d) && UniqueIdentities(s) && d.calculation.id !in s.calculations
    ensures UniqueIdentities(PersistAtomically(s, d).store) <==> WithIdentity(s, d.calculation.identity) == {}
  {
    NewWrite(s, d);
    var t := PersistAtomically(s, d).store;
    if WithIdentity(s, d.calculation.identity) == {} {
      forall j, k | j in t.calculations && k in t.calculations && t.calculations[j].identity == t.calculations[k].identity
        ensures j == k
      {
        if j in s.calculations { assert s.calculations[j].identity != d.calculation.identity by { Stored(s, j); } }
        if k in s.calculations { assert s.calculations[k].identity != d.calculation.identity by { Stored(s, k); } }
      }
    } else {
      var e :| e in WithIdentity(s, d.calculation.identity);
      assert t.calculations[e.id].identity == t.calculations[d.calculation.id].identity;
    }
  }

  lemma Stored(s: Costs, k: VersionId)
    requires k in s.calculations
    ensures s.calculations[k] in WithIdentity(s, s.calculations[k].identity)
  {
  }

  /** The action stores a new version. */
  predicate Adds(s: System, a: Action) {
    a.Commit? && s.PhaseOf(a.client).Proposed? && s.PhaseOf(a.client).proposal.calculation.id !in s.store.calculations
  }

  /** At a commit that stores a new version, no stored calculation has its identity. */
  ghost predicate FirstOfItsIdentity(s: System, a: Action) {
    Adds(s, a) ==> WithIdentity(s.store, s.PhaseOf(a.client).proposal.calculation.identity) == {}
  }

  lemma StepUniqueExactly(s: System, a: Action)
    requires Inv(s)
    ensures UniqueIdentities(Step(s, a).store) <==> UniqueIdentities(s.store) && FirstOfItsIdentity(s, a)
  {
    StepKeepsInv(s, a);
    var t := Step(s, a);
    if UniqueIdentities(t.store) { EarlierIsUnique(s.store, t.store); }
    if Adds(s, a) {
      var d := s.PhaseOf(a.client).proposal;
      assert PhaseInv(s.store, s.clients[a.client]);
      if UniqueIdentities(s.store) { CommitKeepsUniqueExactly(s.store, d); }
    } else if a.Commit? && s.PhaseOf(a.client).Proposed? {
      var d := s.PhaseOf(a.client).proposal;
      assert PhaseInv(s.store, s.clients[a.client]);
      if ApplyAll(s.store, Writes(d.calculation, d.records)).error == None { RewriteChangesNothing(s.store, d); }
    }
  }

  lemma EarlierIsUnique(s: Costs, t: Costs)
    requires Grown(s, t) && UniqueIdentities(t)
    ensures UniqueIdentities(s)
  {
    forall j, k | j in s.calculations && k in s.calculations && s.calculations[j].identity == s.calculations[k].identity
      ensures j == k
    {
      assert t.calculations[j] == s.calculations[j] && t.calculations[k] == s.calculations[k];
    }
  }

  ghost predicate FirstAt(actions: seq<Action>, i: nat)
    requires i < |actions|
  {
    FirstOfItsIdentity(Run(actions[..i]), actions[i])
  }

  lemma FirstAtPrefix(actions: seq<Action>, i: nat)
    requires i < |actions| - 1
    ensures FirstAt(actions, i) <==> FirstAt(actions[..|actions| - 1], i)
  {
    assert actions[..|actions| - 1][..i] == actions[..i];
  }

  /** Over every run: identities are unique at its end if and only if every commit that stored
      a new version was the first with its identity. */
  lemma {:induction false} UniqueExactly(actions: seq<Action>)
    ensures UniqueIdentities(Run(actions).store) <==> forall i :: 0 <= i < |actions| ==> FirstAt(actions, i)
  {
    if actions != [] {
      var n, before := |actions| - 1, actions[..|actions| - 1];
      UniqueExactly(before);
      RunInv(before);
      StepUniqueExactly(Run(before), actions[n]);
      assert FirstAt(actions, n) <==> FirstOfItsIdentity(Run(before), actions[n]);
      forall i | 0 <= i < n ensures FirstAt(actions, i) <==> FirstAt(before, i) { FirstAtPrefix(actions, i); }
    }
  }

  /** The identity a client is working on, once it has found nothing stored for it. */
  function InProgress(p: Phase): Option<Identity> {
    match p
    case Searched(q) => Some(IdentityOf(q))
    case Proposed(d) => Some(d.calculation.identity)
    case _ => None
  }

  /** A search that finds nothing is up to date, and no other client is between its own search
      and its commit for the same identity.  All other actions are unrestricted. */
  ghost predicate SerialAction(s: System, a: Action) {
    a.Search? && a.found == Ok(None) ==>
      && WithIdentity(s.store, IdentityOf(a.request)) == {}
      && forall e <- s.clients :: e != a.client ==> InProgress(s.clients[e]) != Some(IdentityOf(a.request))
  }

  ghost predicate SerialRun(actions: seq<Action>) {
    forall i :: 0 <= i < |actions| ==> SerialAction(Run(actions[..i]), actions[i])
  }

  ghost predicate NotStored(s: Costs, p: Phase) {
    InProgress(p).Some? ==> WithIdentity(s, InProgress(p).value) == {}
  }

  ghost predicate OnePerIdentity(s: System) {
    forall c, e | c in s.clients && e in s.clients && c != e && InProgress(s.clients[c]).Some? ::
      InProgress(s.clients[e]) != InProgress(s.clients[c])
  }

  ghost predicate SerialInv(s: System) {
    && UniqueIdentities(s.store) && OnePerIdentity(s)
    && forall c <- s.clients :: NotStored(s.store, s.clients[c])
  }

  lemma OthersStayUnstored(s: System, t: Costs, client: Client, c: Calculation)
    requires SerialInv(s) && client in s.clients && InProgress(s.clients[client]) == Some(c.identity)
    requires AddsAtMost(s.store, t, c)
    ensures forall e <- s.clients :: e != client ==> NotStored(t, s.clients[e])
  {
    forall e | e in s.clients && e != client && InProgress(s.clients[e]).Some?
      ensures NotStored(t, s.clients[e])
    {
      assert InProgress(s.clients[e]) != InProgress(s.clients[client]);
      assert NotStored(s.store, s.clients[e]);
      StaysUnstored(s.store, t, c, InProgress(s.clients[e]).value);
    }
  }

  predicate AddsAtMost(s: Costs, t: Costs, c: Calculation) {
    t.calculations == s.calculations || t.calculations == s.calculations[c.id := c]
  }

  /** The store after a commit, as far as identities go. */
  lemma CommitAdds(s: Costs, d: Proposal)
    requires Book(s) && GoodProposal(s, d) && UniqueIdentities(s) && WithIdentity(s, d.calculation.identity) == {}
    ensures var t := PersistAtomically(s, d).store;
      UniqueIdentities(t) && AddsAtMost(s, t, d.calculation)
  {
    if d.calculation.id !in s.calculations {
      CommitKeepsUniqueExactly(s, d);
      NewWrite(s, d);
    } else if ApplyAll(s, Writes(d.calculation, d.records)).error == None {
      RewriteChangesNothing(s, d);
    }
  }

  lemma CommitIsSerial(s: System, a: Action)
    requires Inv(s) && SerialInv(s) && a.Commit? && s.PhaseOf(a.client).Proposed?
    ensures SerialInv(Step(s, a))
  {
    var d, t := s.PhaseOf(a.client).proposal, Step(s, a);
    assert PhaseInv(s.store, s.clients[a.client]) && NotStored(s.store, s.clients[a.client]);
    CommitAdds(s.store, d);
    OthersStayUnstored(s, t.store, a.client, d.calculation);
    assert InProgress(t.clients[a.client]) == None;
  }

  lemma StaysUnstored(s: Costs, t: Costs, c: Calculation, i: Identity)
    requires WithIdentity(s, i) == {} && c.identity != i && AddsAtMost(s, t, c)
    ensures WithIdentity(t, i) == {}
  {
    forall k | k in t.calculations ensures t.calculations[k].identity != i {
      if k in s.calculations { Stored(s, k); }
    }
  }

  lemma SearchIsSerial(s: System, a: Action)
    requires SerialInv(s) && SerialAction(s, a) && a.Search?
    ensures SerialInv(Step(s, a))
  {
    var t := Step(s, a);
    var p := AfterSearch(s.store, a.request, a.found);
    assert InProgress(p).Some? ==> a.found == Ok(None) && InProgress(p).value == IdentityOf(a.request);
    assert t == s || t == s.With(a.client, p);
  }

  /** Staying on the same identity, or leaving it, keeps identities apart. */
  lemma SameProgress(s: System, c: Client, p: Phase)
    requires SerialInv(s) && c in s.clients
    requires InProgress(p) == None || InProgress(p) == InProgress(s.clients[c])
    ensures SerialInv(s.With(c, p))
  {
    assert NotStored(s.store, s.clients[c]);
    assert NotStored(s.store, p);
  }

  lemma ProposeIsSerial(s: System, a: Action)
    requires Inv(s) && SerialInv(s) && a.Propose?
    ensures SerialInv(Step(s, a))
  {
    var p, t := s.PhaseOf(a.client), Step(s, a);
    if t != s {
      ProposeKeepsIdentity(s.store, p.request, a.previous);
      SameProgress(s, a.client, t.PhaseOf(a.client));
      assert t == s.With(a.client, t.PhaseOf(a.client));
    }
  }

  lemma ProposeKeepsIdentity(s: Costs, q: Request, previous: Option<Calculation>)
    requires Book(s) && ValidRequest(q) && Observed(s, SeriesOf(q), previous)
    ensures var d := Build(q, previous, PreviousRecords(s, previous));
      d.Ok? ==> d.value.calculation.identity == IdentityOf(q)
  {
    if Build(q, previous, PreviousRecords(s, previous)).Ok? { BuildIsGood(s, q, previous); }
  }

  lemma SerialStep(s: System, a: Action)
    requires Inv(s) && SerialInv(s) && SerialAction(s, a)
    ensures SerialInv(Step(s, a))
  {
    match a
    case Search(_, _, _) => SearchIsSerial(s, a);
    case Propose(_, _) => ProposeIsSerial(s, a);
    case Commit(_) => if s.PhaseOf(a.client).Proposed? { CommitIsSerial(s, a); }
    case Crash(_) =>
  }

  /** Over every run in which searches for one identity do not interleave: every identity is
      stored at most once. */
  lemma {:induction false} IdentitiesUnique(actions: seq<Action>)
    requires SerialRun(actions)
    ensures SerialInv(Run(actions)) && UniqueIdentities(Run(actions).store)
  {
    if actions != [] {
      var before := actions[..|actions| - 1];
      forall i | 0 <= i < |before| ensures SerialAction(Run(before[..i]), before[i]) {
        assert before[..i] == actions[..i];
        assert SerialAction(Run(actions[..i]), actions[i]);
      }
      IdentitiesUnique(before);
      RunInv(before);
      assert SerialAction(Run(before), actions[|actions| - 1]);
      SerialStep(Run(before), actions[|actions| - 1]);
    }
  }
}
