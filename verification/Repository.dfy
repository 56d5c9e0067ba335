/** CostRepository over an append-only list of rate-card rows, one caller at a time.

    Each method reads, decides and appends as the method of CostRepository does.  Its contract
    ties the result and the new store to the decisions of RateCards, and says what they are. */
module Repository {
  import opened Decimals
  import opened Sorting
  import opened Rows
  import opened RateCards
  import opened Lifecycle
  import opened Listing
  import Publishing
  import opened CardAnswers

  const PAGE: nat := 500

  function StoreOf(rows: seq<RateCard>): Store { Indexed(rows, IdOf) }

  predicate ByIdentity(a: RateCard, b: RateCard) {
    a.id < b.id || (a.id == b.id && a.version <= b.version)
  }

  ghost predicate Ascending(cards: seq<RateCard>) {
    forall i, j :: 0 <= i < j < |cards| ==>
      cards[i].id < cards[j].id || (cards[i].id == cards[j].id && cards[i].version < cards[j].version)
  }

  type Key = (Name, nat)

  function KeyOf(c: RateCard): Key { (c.id, c.version) }

  function RevisionOf(c: RateCard): nat { c.revision }

  /** The overlap loop of publish_rate_card. */
  method AnyCollision(current: RateCard, listed: seq<RateCard>) returns (found: bool)
    ensures found <==> exists i :: 0 <= i < |listed| && Collides(current, listed[i])
  {
    for i := 0 to |listed|
      invariant forall j :: 0 <= j < i ==> !Collides(current, listed[j])
    {
      if Collides(current, listed[i]) { return true; }
    }
    return false;
  }

  class RateCardRepository {
    /** The rate_cards resource, in the order of insertion. */
    var rows: seq<RateCard>

    ghost function Store(): Store reads this { StoreOf(rows) }

    ghost predicate Valid() reads this {
      DistinctBy(IdOf, rows) && Histories(Store())
    }

    constructor ()
      ensures Valid() && Store() == map[]
    {
      rows := [];
    }

    method GetRateCard(id: Name, version: nat, revision: Option<nat>) returns (r: Result<RateCard>)
      requires DistinctBy(IdOf, rows)
      ensures revision.None? ==>
        r == if LatestOf(Store(), id, version).Some? then Ok(LatestOf(Store(), id, version).value)
             else Err(MissingRateCard)
      ensures revision.Some? ==>
        var k := SnapshotId(id, version, revision.value);
        r == if k in Store() then Ok(Store()[k]) else Err(MissingRateCard)
    {
      var values := Scan(Select(rows, (c: RateCard) =>
        c.id == id && c.version == version && Wants(revision, c.revision)), PAGE);
      if revision.None? { NoLatest(rows, id, version, values); }
      else { OneSnapshot(rows, SnapshotId(id, version, revision.value), values); }
      if values == [] { return Err(MissingRateCard); }
      var best := Highest(values, RevisionOf);
      if revision.None? { HighestIsLatest(rows, id, version, values, best); }
      return Ok(best);
    }

    /** list_rate_cards: exactly the snapshots that are latest among those that pass the
        filter and have the state, once each, by identity. */
    method ListRateCards(f: Filter, state: Option<PublicationState>) returns (cards: seq<RateCard>)
      requires DistinctBy(IdOf, rows)
      ensures forall c :: c in cards <==> c in Listed(Store(), f, state)
      ensures Ascending(cards)
    {
      RowsAreStored(rows, IdOf);
      var snapshots := Scan(Select(rows, (c: RateCard) => Admits(f, c)), PAGE);
      var values := LatestPerKey(snapshots, KeyOf, RevisionOf);
      var selected := Select(values, (c: RateCard) => Wants(state, c.state));
      cards := Sort(ByIdentity, selected);
      SelectDistinct(KeyOf, values, (c: RateCard) => Wants(state, c.state));
      SortedByIdentity(selected);
      forall c ensures c in cards <==> c in Listed(Store(), f, state) {
        NewestIsListed(rows, snapshots, values, f, c);
      }
    }

    /** _append_card: put, and on a conflict compare with what is stored. */
    method AppendCard(card: RateCard, staleOnConflict: bool) returns (r: Result<RateCard>)
      requires Valid() && Continues(Store(), card)
      modifies this
      ensures Valid() && Store() == PutIfAbsent(old(Store()), card)
      ensures r == AppendResult(old(Store()), card, staleOnConflict)
    {
      PutKeepsHistories(Store(), card);
      var stored;
      rows, stored := InsertRow(rows, IdOf, card);
      if !stored {
        var persisted := GetRateCard(card.id, card.version, Some(card.revision));
        if persisted == Ok(card) { return persisted; }
        if staleOnConflict { return Err(StaleRevision); }
        return Err(Conflict);
      }
      return Ok(card);
    }

    /** create_rate_card; `existed` is the second component of what create_rate_card returns. */
    method CreateRateCard(card: RateCard) returns (r: Result<RateCard>, existed: bool)
      requires Valid() && ValidRateCard(card)
      modifies this
      ensures Valid()
      ensures var k := SnapshotId(card.id, card.version, 1);
        var seen := if k in old(Store()) then Some(old(Store())[k]) else None;
        && Store() == StoreAfter(old(Store()), DecideCreate(seen, card))
        && r == ResultOf(old(Store()), DecideCreate(seen, card))
        && (r.Ok? ==> existed == seen.Some?)
      ensures Created(old(Store()), Store(), card, r)
    {
      existed := false;
      CreatedExactly(Store(), card);
      if card.revision != 1 || card.state != Draft { return Err(InvalidCost), existed; }
      var existing := GetRateCard(card.id, card.version, Some(1));
      if existing.Ok? {
        if existing.value != card { return Err(Conflict), existed; }
        return existing, true;
      }
      r := AppendCard(card, false);
    }

    /** replace_draft. */
    method ReplaceDraft(card: RateCard, expected: nat) returns (r: Result<RateCard>)
      requires Valid() && ValidRateCard(card)
      modifies this
      ensures Valid()
      ensures var d := DecideReplace(LatestOf(old(Store()), card.id, card.version), card, expected);
        Store() == StoreAfter(old(Store()), d) && r == ResultOf(old(Store()), d)
      ensures Replaced(old(Store()), Store(), card, expected, r)
    {
      ReplacedExactly(Store(), card, expected);
      var current :- GetRateCard(card.id, card.version, None);
      if current.revision != expected { return Err(StaleRevision); }
      if current.state != Draft || card.state != Draft { return Err(InvalidCost); }
      if card.revision != expected + 1 { return Err(InvalidCost); }
      assert Previous(IdOf(card)) == IdOf(current);
      assert Sound(Store(), IdOf(current));
      r := AppendCard(card, true);
    }

    /** _transition: validate_rate_card and retire_rate_card are this with their state. */
    method MoveRateCard(id: Name, version: nat, expected: nat, to: PublicationState, at: int)
      returns (r: Result<RateCard>)
      requires Valid()
      modifies this
      ensures Valid()
      ensures var d := DecideTransition(LatestOf(old(Store()), id, version), expected, to, at);
        Store() == StoreAfter(old(Store()), d) && r == ResultOf(old(Store()), d)
      ensures Moved(old(Store()), Store(), id, version, expected, to, at, r)
    {
      MovedExactly(Store(), id, version, expected, to, at);
      var current :- GetRateCard(id, version, None);
      if current.revision != expected { return Err(StaleRevision); }
      var moved :- Transition(current, to, at);
      TransitionFollows(Store(), current, to, at);
      r := AppendCard(moved, true);
    }

    /** publish_rate_card: the overlap check over the published cards of the pricing key, then
        the transition.  It publishes exactly when nothing current collides. */
    method PublishRateCard(id: Name, version: nat, expected: nat, at: int) returns (r: Result<RateCard>)
      requires Valid()
      modifies this
      ensures Valid()
      ensures var d := DecidePublication(old(Store()), id, version, expected, at);
        Store() == StoreAfter(old(Store()), d) && r == ResultOf(old(Store()), d)
      ensures PublishedAs(old(Store()), Store(), id, version, expected, at, r)
    {
      PublishedExactly(Store(), id, version, expected, at);
      var current :- GetRateCard(id, version, None);
      if current.revision != expected { return Err(StaleRevision); }
      if current.state != Validated { return Err(InvalidCost); }
      var listed := ListRateCards(ANY.(pricingKey := Some(current.terms.key)), Some(Published));
      OverlapSeen(Store(), current, listed);
      var collision := AnyCollision(current, listed);
      if collision { return Err(OverlappingRateCard); }
      r := MoveRateCard(id, version, expected, Published, at);
    }

    /** resolve_rate_card. */
    method ResolveRateCard(f: Filter, w: Window, dimensions: map<Name, Name>) returns (r: Result<RateCard>)
      requires Valid()
      ensures r == Publishing.Resolve(Store(), f, w, dimensions)
      ensures w.start < w.end ==> match r
        case Ok(c) => forall x :: Publishing.Answers(Store(), f, w, dimensions, x) <==> x == c
        case Err(e) =>
          || (e == MissingRateCard && forall x :: !Publishing.Answers(Store(), f, w, dimensions, x))
          || (e == InvalidCost && exists a, b ::
                a != b && Publishing.Answers(Store(), f, w, dimensions, a) && Publishing.Answers(Store(), f, w, dimensions, b))
    {
      var listed := ListRateCards(f, Some(Published));
      var matches := Select(listed, (c: RateCard) => Fitting(c, w, dimensions));
      SelectDistinct(KeyOf, listed, (c: RateCard) => Fitting(c, w, dimensions));
      ResolveMatches(Store(), f, w, dimensions, matches);
      if w.start < w.end { Publishing.ResolveAnswers(Store(), f, w, dimensions); }
      if matches == [] { return Err(MissingRateCard); }
      if |matches| != 1 { return Err(InvalidCost); }
      return Ok(matches[0]);
    }
  }

  predicate Fitting(c: RateCard, w: Window, dimensions: map<Name, Name>) {
    Covers(c.terms, w) && MatchesDimensions(c.terms.key, dimensions)
  }

  lemma ResolveMatches(store: Store, f: Filter, w: Window, dimensions: map<Name, Name>, matches: seq<RateCard>)
    requires forall c :: c in matches <==> c in Listed(store, f, Some(Published)) && Fitting(c, w, dimensions)
    requires DistinctBy(KeyOf, matches)
    ensures Publishing.Resolve(store, f, w, dimensions)
         == if matches == [] then Err(MissingRateCard)
            else if |matches| != 1 then Err(InvalidCost)
            else Ok(matches[0])
  {
    var all := Publishing.Matches(store, f, w, dimensions);
    assert forall c :: c in all <==> c in matches;
    if matches != [] {
      assert matches[0] in all;
      if |matches| == 1 {
        assert all == {matches[0]};
      } else {
        assert matches[1] in all && KeyOf(matches[0]) != KeyOf(matches[1]);
        if |all| == 1 { Publishing.Singleton(all, matches[0], matches[1]); }
      }
    }
  }

  // ---- lemmas about the reads ----

  ghost predicate SnapshotsOf(rows: seq<RateCard>, id: Name, version: nat, values: seq<RateCard>) {
    forall c :: c in values <==> c in rows && c.id == id && c.version == version
  }

  lemma HighestIsLatest(rows: seq<RateCard>, id: Name, version: nat, values: seq<RateCard>, best: RateCard)
    requires DistinctBy(IdOf, rows) && SnapshotsOf(rows, id, version, values)
    requires best in values && forall c <- values :: RevisionOf(c) <= RevisionOf(best)
    ensures LatestOf(StoreOf(rows), id, version) == Some(best)
  {
    RowsAreStored(rows, IdOf);
    LatestOfIs(StoreOf(rows), id, version, best);
  }

  lemma NoLatest(rows: seq<RateCard>, id: Name, version: nat, values: seq<RateCard>)
    requires SnapshotsOf(rows, id, version, values)
    ensures values == [] ==> LatestOf(StoreOf(rows), id, version) == None
  {
    var latest := LatestOf(StoreOf(rows), id, version);
    assert latest.Some? ==> latest.value in values;
  }

  lemma OneSnapshot(rows: seq<RateCard>, k: SnapshotId, values: seq<RateCard>)
    requires DistinctBy(IdOf, rows)
    requires forall c :: c in values <==> c in rows && IdOf(c) == k
    ensures values == [] <==> k !in StoreOf(rows)
    ensures forall c <- values :: k in StoreOf(rows) && c == StoreOf(rows)[k]
  {
    RowsAreStored(rows, IdOf);
    if k in StoreOf(rows) { assert StoreOf(rows)[k] in values; }
    if values != [] { assert values[0] in values; }
  }

  lemma OverlapSeen(store: Store, current: RateCard, listed: seq<RateCard>)
    requires Histories(store)
    requires forall c :: c in listed <==>
      c in Listed(store, ANY.(pricingKey := Some(current.terms.key)), Some(Published))
    ensures Blocked(store, current) <==> exists i :: 0 <= i < |listed| && Collides(current, listed[i])
  {
    FilterBeforeLatest(store, ANY.(pricingKey := Some(current.terms.key)), Published);
    if Blocked(store, current) {
      var other :| other in listed && Collides(current, other);
      var i :| 0 <= i < |listed| && listed[i] == other;
    }
  }

  // ---- lemmas about the listing ----

  ghost predicate Admitted(rows: seq<RateCard>, f: Filter, snapshots: seq<RateCard>) {
    forall x :: x in snapshots <==> x in rows && Admits(f, x)
  }

  lemma NewestIsAdmitted(rows: seq<RateCard>, snapshots: seq<RateCard>, values: seq<RateCard>,
                         f: Filter, c: RateCard)
    requires DistinctBy(IdOf, rows) && Newest(snapshots, KeyOf, RevisionOf, values)
    requires Admitted(rows, f, snapshots) && c in values
    ensures IsLatestAdmitted(StoreOf(rows), f, c)
  {
    var store := StoreOf(rows);
    RowsAreStored(rows, IdOf);
    assert c in snapshots;
    forall j | j in store && SameCard(store[j], c) && Admits(f, store[j])
      ensures store[j].revision <= c.revision
    {
      assert store[j] in snapshots && KeyOf(store[j]) == KeyOf(c);
      assert RevisionOf(store[j]) <= RevisionOf(c);
    }
  }

  lemma NewestIsListed(rows: seq<RateCard>, snapshots: seq<RateCard>, values: seq<RateCard>,
                       f: Filter, c: RateCard)
    requires DistinctBy(IdOf, rows) && Newest(snapshots, KeyOf, RevisionOf, values)
    requires Admitted(rows, f, snapshots)
    ensures c in values <==> IsLatestAdmitted(StoreOf(rows), f, c)
  {
    if c in values { NewestIsAdmitted(rows, snapshots, values, f, c); }
    if IsLatestAdmitted(StoreOf(rows), f, c) {
      RowsAreStored(rows, IdOf);
      assert c in snapshots;
      var m :| m in values && KeyOf(m) == KeyOf(c);
      NewestIsAdmitted(rows, snapshots, values, f, m);
      SameRevisionAdmitted(StoreOf(rows), f, c, m);
    }
  }

  lemma SameRevisionAdmitted(store: Store, f: Filter, a: RateCard, b: RateCard)
    requires IsLatestAdmitted(store, f, a) && IsLatestAdmitted(store, f, b) && SameCard(a, b)
    ensures a == b
  {
    assert SameCard(store[IdOf(a)], b) && SameCard(store[IdOf(b)], a);
  }

  lemma SortedByIdentity(s: seq<RateCard>)
    requires DistinctBy(KeyOf, s)
    ensures Ascending(Sort(ByIdentity, s))
    ensures forall c :: c in Sort(ByIdentity, s) <==> c in s
  {
    var t := Sort(ByIdentity, s);
    SortIsSorted(ByIdentity, s);
    PermutedDistinct(KeyOf, s, t);
    forall i, j | 0 <= i < j < |t|
      ensures t[i].id < t[j].id || (t[i].id == t[j].id && t[i].version < t[j].version)
    {
      assert ByIdentity(t[i], t[j]);
      assert KeyOf(t[i]) != KeyOf(t[j]);
    }
    forall c ensures c in t <==> c in s {
      assert c in t <==> c in multiset(t);
      assert c in s <==> c in multiset(s);
    }
  }

  // ---- the repository runs the protocol ----

  /** Replacing a draft is one read and one put of the protocol. */
  lemma ReplaceIsTwoSteps(s: System, c: Client, card: RateCard, expected: nat)
    requires Inv(s) && ValidRateCard(card) && s.PhaseOf(c) == Idle
    ensures var seen := LatestOf(s.store, card.id, card.version);
      var t := Step(Step(s, Read(c, Replace(card, expected), seen)), Put(c));
      var d := DecideReplace(seen, card, expected);
      t.store == StoreAfter(s.store, d) && t.PhaseOf(c) == Finished(ResultOf(s.store, d))
  {
  }

  /** So is every transition to validated or retired. */
  lemma MoveIsTwoSteps(s: System, c: Client, id: Name, version: nat, expected: nat,
                       to: PublicationState, at: int)
    requires Inv(s) && s.PhaseOf(c) == Idle && (to == Validated || to == Retired)
    ensures var seen := LatestOf(s.store, id, version);
      var t := Step(Step(s, Read(c, Move(id, version, expected, to, at), seen)), Put(c));
      var d := DecideTransition(seen, expected, to, at);
      t.store == StoreAfter(s.store, d) && t.PhaseOf(c) == Finished(ResultOf(s.store, d))
  {
  }

  /** Publishing is a read, a check against the listing, a second read and a put. */
  lemma PublishIsFourSteps(s: System, c: Client, id: Name, version: nat, expected: nat, at: int)
    requires Inv(s) && s.PhaseOf(c) == Idle && DecidePublish(LatestOf(s.store, id, version), expected).Ok?
    ensures var current := DecidePublish(LatestOf(s.store, id, version), expected).value;
      var read := Step(s, Read(c, Publish(id, version, expected, at), Some(current)));
      var listed := Listed(s.store, ANY.(pricingKey := Some(current.terms.key)), Some(Published));
      var checked := Step(read, CheckOverlap(c, listed));
      var t := Step(Step(checked, Reread(c, Some(current))), Put(c));
      var d := DecidePublication(s.store, id, version, expected, at);
      t.store == StoreAfter(s.store, d) && t.PhaseOf(c) == Finished(ResultOf(s.store, d))
  {
    var current := DecidePublish(LatestOf(s.store, id, version), expected).value;
    FilterBeforeLatest(s.store, ANY.(pricingKey := Some(current.terms.key)), Published);
  }
}
