/** Rate-card snapshots, and the decisions the repository takes about them.

    Names are opaque numbers ordered as their text.  A fingerprint is the content it is
    computed from: the pricing fingerprint of a card is its identity with its terms, and
    the fingerprint of a snapshot is the snapshot. */
module RateCards {
  import opened Decimals
  import Pricing

  type Name = nat

  datatype PublicationState = Draft | Validated | Published | Retired

  datatype PricingKey = PricingKey(provider: Name, product: Name, meterId: Name,
                                   meterVersion: nat, dimensions: map<Name, Name>)

  /** Everything the pricing fingerprint covers besides the card's identity. */
  datatype Terms = Terms(key: PricingKey, currency: Name, start: int, end: int,
                         pricing: Pricing.Card, provenance: map<Name, Name>,
                         supersedes: Option<nat>)

  datatype RateCard = RateCard(id: Name, version: nat, revision: nat, terms: Terms,
                               state: PublicationState, createdAt: int, publishedAt: Option<int>)

  datatype SnapshotId = SnapshotId(id: Name, version: nat, revision: nat)

  datatype Window = Window(start: int, end: int)

  function IdOf(c: RateCard): SnapshotId { SnapshotId(c.id, c.version, c.revision) }

  predicate SameCard(a: RateCard, b: RateCard) { a.id == b.id && a.version == b.version }

  /** The RateCardV1 constructor. */
  predicate ValidRateCard(c: RateCard) {
    && c.version >= 1 && c.revision >= 1
    && c.terms.start < c.terms.end
    && Pricing.ValidCard(c.terms.pricing)
    && (c.publishedAt.Some? <==> c.state == Published || c.state == Retired)
  }

  predicate Overlap(a: Terms, b: Terms) { a.start < b.end && b.start < a.end }

  predicate Covers(t: Terms, w: Window) { t.start <= w.start && w.end <= t.end }

  predicate MatchesDimensions(k: PricingKey, dimensions: map<Name, Name>) {
    forall d <- k.dimensions :: d in dimensions && dimensions[d] == k.dimensions[d]
  }

  /** The lifecycle steps that RateCardV1.transition allows. */
  predicate Allowed(from: PublicationState, to: PublicationState) {
    || (from == Draft && to == Validated)
    || (from == Validated && to == Published)
    || (from == Published && to == Retired)
  }

  function Transition(c: RateCard, to: PublicationState, at: int): Result<RateCard> {
    if !Allowed(c.state, to) then Err(InvalidCost) else
    Ok(c.(revision := c.revision + 1, state := to,
          publishedAt := if to == Published then Some(at) else c.publishedAt))
  }

  // ---- what each operation decides from the snapshot it read ----

  datatype Decision =
    | Append(card: RateCard, staleOnConflict: bool)
    | Return(result: Result<RateCard>)

  /** create_rate_card, from its read of revision 1. */
  function DecideCreate(existing: Option<RateCard>, card: RateCard): Decision {
    if card.revision != 1 || card.state != Draft then Return(Err(InvalidCost))
    else match existing
      case None => Append(card, false)
      case Some(prior) => Return(if prior == card then Ok(prior) else Err(Conflict))
  }

  /** replace_draft, from its read of the latest snapshot. */
  function DecideReplace(current: Option<RateCard>, card: RateCard, expected: nat): Decision {
    match current
    case None => Return(Err(MissingRateCard))
    case Some(prior) =>
      if prior.revision != expected then Return(Err(StaleRevision))
      else if prior.state != Draft || card.state != Draft then Return(Err(InvalidCost))
      else if card.revision != expected + 1 then Return(Err(InvalidCost))
      else Append(card, true)
  }

  /** _transition, from its read of the latest snapshot. */
  function DecideTransition(current: Option<RateCard>, expected: nat, to: PublicationState,
                            at: int): Decision
  {
    match current
    case None => Return(Err(MissingRateCard))
    case Some(prior) =>
      if prior.revision != expected then Return(Err(StaleRevision))
      else match Transition(prior, to, at)
        case Ok(card) => Append(card, true)
        case Err(e) => Return(Err(e))
  }

  /** publish_rate_card before its overlap check: the snapshot to be published. */
  function DecidePublish(current: Option<RateCard>, expected: nat): Result<RateCard> {
    match current
    case None => Err(MissingRateCard)
    case Some(prior) =>
      if prior.revision != expected then Err(StaleRevision)
      else if prior.state != Validated then Err(InvalidCost)
      else Ok(prior)
  }

  predicate Collides(current: RateCard, other: RateCard) {
    !SameCard(current, other) && Overlap(current.terms, other.terms)
  }

  // ---- the append-only store ----

  type Store = map<SnapshotId, RateCard>

  /** Put with mode if_absent. */
  function PutIfAbsent(store: Store, card: RateCard): Store {
    if IdOf(card) in store then store else store[IdOf(card) := card]
  }

  /** What _append_card returns after its put, reading back on a conflict. */
  function AppendResult(store: Store, card: RateCard, staleOnConflict: bool): Result<RateCard> {
    if IdOf(card) !in store || store[IdOf(card)] == card then Ok(card)
    else Err(if staleOnConflict then StaleRevision else Conflict)
  }

  ghost predicate IsLatest(store: Store, c: RateCard) {
    && IdOf(c) in store && store[IdOf(c)] == c
    && forall k <- store :: SameCard(store[k], c) ==> store[k].revision <= c.revision
  }

  // ---- what the tests on cards mean ----

  /** The instant lies in the card's effective interval. */
  predicate During(t: int, terms: Terms) { terms.start <= t < terms.end }

  predicate Within(t: int, w: Window) { w.start <= t < w.end }

  ghost predicate ShareInstant(a: Terms, b: Terms) {
    exists t :: During(t, a) && During(t, b)
  }

  /** Every instant of the window lies in the card's effective interval. */
  ghost predicate CoversAll(terms: Terms, w: Window) {
    forall t :: Within(t, w) ==> During(t, terms)
  }

  /** Every dimension of the key is given, with the same value. */
  predicate GivesAll(k: PricingKey, dimensions: map<Name, Name>) { k.dimensions.Items <= dimensions.Items }

  /** Intervals overlap exactly when they have an instant in common; adjacent ones do not. */
  lemma OverlapExactly(a: Terms, b: Terms)
    requires a.start < a.end && b.start < b.end
    ensures Overlap(a, b) <==> ShareInstant(a, b)
  {
    if Overlap(a, b) {
      var t := if a.start < b.start then b.start else a.start;
      assert During(t, a) && During(t, b);
    }
  }

  lemma CoversExactly(terms: Terms, w: Window)
    requires w.start < w.end
    ensures Covers(terms, w) <==> CoversAll(terms, w)
  {
    if CoversAll(terms, w) {
      assert Within(w.start, w) && Within(w.end - 1, w);
      assert During(w.start, terms) && During(w.end - 1, terms);
    }
  }

  /** A card matches exactly the maps that contain all of its dimensions. */
  lemma MatchesDimensionsExactly(k: PricingKey, dimensions: map<Name, Name>)
    ensures MatchesDimensions(k, dimensions) <==> GivesAll(k, dimensions)
  {
    if MatchesDimensions(k, dimensions) {
      forall item | item in k.dimensions.Items ensures item in dimensions.Items {
        assert item.0 in dimensions && dimensions[item.0] == item.1;
      }
    }
    if GivesAll(k, dimensions) {
      forall d | d in k.dimensions ensures d in dimensions && dimensions[d] == k.dimensions[d] {
        assert (d, k.dimensions[d]) in k.dimensions.Items;
        assert (d, k.dimensions[d]) in dimensions.Items;
      }
    }
  }

  /** Further dimensions never lose a match. */
  lemma FurtherDimensionsMatch(k: PricingKey, dimensions: map<Name, Name>, more: map<Name, Name>)
    requires MatchesDimensions(k, dimensions) && dimensions.Items <= more.Items
    ensures MatchesDimensions(k, more)
  {
    MatchesDimensionsExactly(k, dimensions);
    MatchesDimensionsExactly(k, more);
  }

  /** A dimension that is missing or different always does. */
  lemma OtherDimensionsDiffer(k: PricingKey, dimensions: map<Name, Name>, d: Name)
    requires d in k.dimensions && (d !in dimensions || dimensions[d] != k.dimensions[d])
    ensures !MatchesDimensions(k, dimensions)
  {
  }
}
