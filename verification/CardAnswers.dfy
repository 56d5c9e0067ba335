/** What the operations on rate cards answer when nobody interferes, said of the stored
    snapshots alone. */
module CardAnswers {
  import opened Decimals
  import opened RateCards
  import opened Lifecycle
  import opened Listing
  import opened Publishing

  /** The current snapshot of a card, if it has one. */
  ghost function LatestOf(store: Store, id: Name, version: nat): Option<RateCard> {
    if c :| c in store.Values && c.id == id && c.version == version && IsLatest(store, c) then Some(c)
    else None
  }

  lemma LatestOfIs(store: Store, id: Name, version: nat, c: RateCard)
    requires IsLatest(store, c) && c.id == id && c.version == version
    ensures LatestOf(store, id, version) == Some(c)
  {
    ListedSomewhere(store, c);
    SameRevision(store, c, LatestOf(store, id, version).value);
  }

  /** The state and the result that a decision leads to. */
  function StoreAfter(store: Store, d: Decision): Store {
    match d
    case Append(card, _) => PutIfAbsent(store, card)
    case Return(_) => store
  }

  function ResultOf(store: Store, d: Decision): Result<RateCard> {
    match d
    case Append(card, stale) => AppendResult(store, card, stale)
    case Return(result) => result
  }

  /** A current published card of the same pricing key that another publication runs into. */
  ghost predicate Blocked(store: Store, current: RateCard) {
    exists other <- Current(store, ANY.(pricingKey := Some(current.terms.key)), Some(Published)) ::
      Collides(current, other)
  }

  /** publish_rate_card as one decision over the whole store. */
  ghost function DecidePublication(store: Store, id: Name, version: nat, expected: nat, at: int): Decision {
    var seen := LatestOf(store, id, version);
    match DecidePublish(seen, expected)
    case Err(e) => Return(Err(e))
    case Ok(current) =>
      if Blocked(store, current) then Return(Err(OverlappingRateCard))
      else DecideTransition(seen, expected, Published, at)
  }

  // ---- the answers ----

  /** No snapshot of the card is stored. */
  ghost predicate NoCard(store: Store, id: Name, version: nat) {
    forall k <- store :: store[k].id != id || store[k].version != version
  }

  /** `c` is the latest snapshot of the card. */
  ghost predicate Latest(store: Store, id: Name, version: nat, c: RateCard) {
    && SnapshotId(id, version, c.revision) in store && store[SnapshotId(id, version, c.revision)] == c
    && c.id == id && c.version == version
    && forall k <- store :: store[k].id == id && store[k].version == version ==> store[k].revision <= c.revision
  }

  /** The store has gained exactly this snapshot, which was not there. */
  ghost predicate Gained(before: Store, after: Store, c: RateCard) {
    var k := SnapshotId(c.id, c.version, c.revision);
    k !in before && after == before[k := c]
  }

  /** Creating stores draft revision 1 once; an equal one that is there already is success, and
      a different one a conflict. */
  ghost predicate Created(before: Store, after: Store, card: RateCard, r: Result<RateCard>) {
    var k := SnapshotId(card.id, card.version, 1);
    if card.revision != 1 || card.state != Draft then r == Err(InvalidCost) && after == before
    else if k !in before then r == Ok(card) && Gained(before, after, card)
    else if before[k] == card then r == Ok(card) && after == before
    else r == Err(Conflict) && after == before
  }

  /** The latest snapshot `c` is not what the caller expects: nothing is stored. */
  ghost predicate Refused(before: Store, after: Store, r: Result<RateCard>, e: Error) {
    r == Err(e) && after == before
  }

  ghost predicate Replaced(before: Store, after: Store, card: RateCard, expected: nat, r: Result<RateCard>) {
    && (NoCard(before, card.id, card.version) ==> Refused(before, after, r, MissingRateCard))
    && forall c :: Latest(before, card.id, card.version, c) ==>
         if c.revision != expected then Refused(before, after, r, StaleRevision)
         else if c.state != Draft || card.state != Draft || card.revision != c.revision + 1 then
           Refused(before, after, r, InvalidCost)
         else r == Ok(card) && Gained(before, after, card)
  }

  /** The state that may come after. */
  function NextState(s: PublicationState): Option<PublicationState> {
    match s
    case Draft => Some(Validated)
    case Validated => Some(Published)
    case Published => Some(Retired)
    case Retired => None
  }

  /** The same card one state later. */
  function Advanced(c: RateCard, to: PublicationState, at: int): RateCard {
    RateCard(c.id, c.version, c.revision + 1, c.terms, to, c.createdAt,
             if to == Published then Some(at) else c.publishedAt)
  }

  ghost predicate Moved(before: Store, after: Store, id: Name, version: nat, expected: nat, to: PublicationState,
                        at: int, r: Result<RateCard>)
  {
    && (NoCard(before, id, version) ==> Refused(before, after, r, MissingRateCard))
    && forall c :: Latest(before, id, version, c) ==>
         if c.revision != expected then Refused(before, after, r, StaleRevision)
         else if NextState(c.state) != Some(to) then Refused(before, after, r, InvalidCost)
         else r == Ok(Advanced(c, to, at)) && Gained(before, after, Advanced(c, to, at))
  }

  /** A card that is published now, has the same pricing key and another identity, and an
      instant in common. */
  ghost predicate Competes(store: Store, c: RateCard, other: RateCard) {
    && Latest(store, other.id, other.version, other) && other.state == Published
    && other.terms.key == c.terms.key && (other.id != c.id || other.version != c.version)
    && ShareInstant(c.terms, other.terms)
  }

  ghost predicate PublishedAs(before: Store, after: Store, id: Name, version: nat, expected: nat, at: int,
                              r: Result<RateCard>)
  {
    && (NoCard(before, id, version) ==> Refused(before, after, r, MissingRateCard))
    && forall c :: Latest(before, id, version, c) ==>
         if c.revision != expected then Refused(before, after, r, StaleRevision)
         else if c.state != Validated then Refused(before, after, r, InvalidCost)
         else if exists other :: Competes(before, c, other) then Refused(before, after, r, OverlappingRateCard)
         else r == Ok(Advanced(c, Published, at)) && Gained(before, after, Advanced(c, Published, at))
  }

  // ---- from the decisions to the answers ----

  lemma LatestMeans(store: Store, id: Name, version: nat, c: RateCard)
    ensures Latest(store, id, version, c) <==> IsLatest(store, c) && c.id == id && c.version == version
  {
  }

  lemma StoredHasLatest(store: Store, k: SnapshotId)
    requires Histories(store) && k in store
    ensures LatestOf(store, store[k].id, store[k].version).Some?
  {
    assert Sound(store, k);
    var m := LatestExists(store, store[k]);
    LatestOfIs(store, m.id, m.version, m);
  }

  lemma LatestOfMeans(store: Store, id: Name, version: nat)
    requires Histories(store)
    ensures match LatestOf(store, id, version)
      case None => NoCard(store, id, version) && forall c :: !Latest(store, id, version, c)
      case Some(c) => !NoCard(store, id, version) && forall x :: Latest(store, id, version, x) <==> x == c
  {
    match LatestOf(store, id, version)
    case None =>
      forall k | k in store ensures store[k].id != id || store[k].version != version {
        StoredHasLatest(store, k);
      }
    case Some(c) =>
      assert IsLatest(store, c) && store[IdOf(c)] == c;
      forall x ensures Latest(store, id, version, x) <==> x == c {
        if Latest(store, id, version, x) { SameRevision(store, c, x); }
      }
  }

  /** The snapshot after the latest is not stored yet, so appending it cannot conflict. */
  lemma NextGains(store: Store, c: RateCard, next: RateCard, stale: bool)
    requires Histories(store) && IsLatest(store, c) && SameCard(c, next) && next.revision == c.revision + 1
    ensures Gained(store, StoreAfter(store, Append(next, stale)), next)
    ensures ResultOf(store, Append(next, stale)) == Ok(next)
  {
    if IdOf(next) in store { StoredUnderId(store, IdOf(next)); }
  }

  lemma StoredUnderId(store: Store, k: SnapshotId)
    requires Histories(store) && k in store
    ensures IdOf(store[k]) == k
  {
    assert Sound(store, k);
  }

  lemma CreatedExactly(store: Store, card: RateCard)
    ensures var k := SnapshotId(card.id, card.version, 1);
      var d := DecideCreate(if k in store then Some(store[k]) else None, card);
      Created(store, StoreAfter(store, d), card, ResultOf(store, d))
  {
  }

  /** Creating an equal card again succeeds and stores nothing. */
  lemma CreatedTwice(before: Store, between: Store, after: Store, card: RateCard, r: Result<RateCard>, again: Result<RateCard>)
    requires Created(before, between, card, r) && r.Ok? && Created(between, after, card, again)
    ensures again == Ok(card) && after == between
  {
  }

  lemma ReplacedExactly(store: Store, card: RateCard, expected: nat)
    requires Histories(store)
    ensures var d := DecideReplace(LatestOf(store, card.id, card.version), card, expected);
      Replaced(store, StoreAfter(store, d), card, expected, ResultOf(store, d))
  {
    LatestOfMeans(store, card.id, card.version);
    var d := DecideReplace(LatestOf(store, card.id, card.version), card, expected);
    if d.Append? { NextGains(store, LatestOf(store, card.id, card.version).value, card, true); }
  }

  lemma MovedExactly(store: Store, id: Name, version: nat, expected: nat, to: PublicationState, at: int)
    requires Histories(store)
    ensures var d := DecideTransition(LatestOf(store, id, version), expected, to, at);
      Moved(store, StoreAfter(store, d), id, version, expected, to, at, ResultOf(store, d))
  {
    LatestOfMeans(store, id, version);
    var d := DecideTransition(LatestOf(store, id, version), expected, to, at);
    if d.Append? { NextGains(store, LatestOf(store, id, version).value, d.card, true); }
  }

  /** The overlap check fails exactly when a published card competes. */
  lemma BlockedExactly(store: Store, c: RateCard)
    requires Histories(store) && IsLatest(store, c)
    ensures Blocked(store, c) <==> exists other :: Competes(store, c, other)
  {
    assert Sound(store, IdOf(c));
    var f := ANY.(pricingKey := Some(c.terms.key));
    if Blocked(store, c) {
      var other :| other in Current(store, f, Some(Published)) && Collides(c, other);
      assert Sound(store, IdOf(other));
      OverlapExactly(c.terms, other.terms);
      assert Competes(store, c, other);
    }
    if other :| Competes(store, c, other) {
      assert Sound(store, IdOf(other));
      OverlapExactly(c.terms, other.terms);
      ListedSomewhere(store, other);
      assert other in Current(store, f, Some(Published));
    }
  }

  lemma PublishedExactly(store: Store, id: Name, version: nat, expected: nat, at: int)
    requires Histories(store)
    ensures var d := DecidePublication(store, id, version, expected, at);
      PublishedAs(store, StoreAfter(store, d), id, version, expected, at, ResultOf(store, d))
  {
    LatestOfMeans(store, id, version);
    var seen, d := LatestOf(store, id, version), DecidePublication(store, id, version, expected, at);
    if seen.Some? {
      BlockedExactly(store, seen.value);
      if d.Append? { NextGains(store, seen.value, d.card, true); }
    }
  }
}
