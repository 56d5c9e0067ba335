/** The whole calculate call: the check of the rate card, and then the calculation. */
module Calls {
  import opened Decimals
  import opened RateCards
  import opened Calculations
  import opened Persistence
  import opened Calculator
  import Allocation
  import CalculationRuns
  import Lifecycle
  import Listing
  import Pricing
  import Replay
  import CardAnswers

  function CheckedCard(latest: Option<RateCard>, q: Request, snapshot: bool): Result<CardRef> {
    CheckCard(latest, q.card, snapshot, q.window)
  }

  ghost function CardNow(cards: Store, q: Request): Option<RateCard> {
    CardAnswers.LatestOf(cards, q.card.id, q.card.version)
  }

  /** A card that passes the check is stored, so its pricing is valid. */
  lemma CheckedIsValid(cards: Store, q: Request, snapshot: bool)
    requires Lifecycle.Histories(cards) && CheckedCard(CardNow(cards, q), q, snapshot).Ok?
    ensures Pricing.ValidCard(q.card.terms.pricing)
  {
    var c := CardNow(cards, q).value;
    assert Lifecycle.Sound(cards, IdOf(c));
  }

  /** calculate on the two stores: `q.card` is the card the caller named, `snapshot` says that it
      was passed whole. */
  ghost function CallIn(cards: Store, s: Costs, q: Request, snapshot: bool): Answer
    requires Lifecycle.Histories(cards) && Allocation.ValidSpec(q.spec.weights)
  {
    match CheckedCard(CardNow(cards, q), q, snapshot)
    case Err(e) => Answer(s, Err(e))
    case Ok(_) => CheckedIsValid(cards, q, snapshot); CalculateIn(s, q)
  }

  // ---- when a call succeeds ----

  /** The card that the request names is published with these terms and covers the window. */
  ghost predicate Usable(cards: Store, q: Request) {
    exists c :: CardAnswers.Latest(cards, q.card.id, q.card.version, c)
      && c.terms == q.card.terms && c.state == Published && CoversAll(c.terms, q.window)
  }

  /** The usage is of the card's meter, and the call is not before the end of the window. */
  predicate Timely(q: Request) {
    && q.usage.meterId == q.card.terms.key.meterId && q.usage.meterVersion == q.card.terms.key.meterVersion
    && q.window.end <= q.occurredAt
  }

  lemma CardCheckExactly(cards: Store, q: Request, snapshot: bool)
    requires Lifecycle.Histories(cards) && q.window.start < q.window.end
    ensures CheckedCard(CardNow(cards, q), q, snapshot).Ok? <==> Usable(cards, q)
    ensures CardAnswers.NoCard(cards, q.card.id, q.card.version) ==>
      CheckedCard(CardNow(cards, q), q, snapshot) == Err(MissingRateCard)
    ensures forall c :: CardAnswers.Latest(cards, q.card.id, q.card.version, c) && !Usable(cards, q) ==>
      CheckedCard(CardNow(cards, q), q, snapshot)
      == Err(if c.terms != q.card.terms && !snapshot then MissingRateCard else InvalidCost)
  {
    CardAnswers.LatestOfMeans(cards, q.card.id, q.card.version);
    if CardNow(cards, q).Some? { CoversExactly(CardNow(cards, q).value.terms, q.window); }
  }

  /** A call succeeds exactly when its card is usable, its usage is of the card's meter and
      complete in time, and its identity is stored once, or not at all and it can be priced. */
  lemma CallSucceedsExactly(cards: Store, s: Costs, q: Request, snapshot: bool)
    requires Lifecycle.Histories(cards) && Book(s) && Allocation.ValidSpec(q.spec.weights) && q.window.start < q.window.end
    ensures CallIn(cards, s, q, snapshot).result.Ok? <==>
      Usable(cards, q) && Timely(q) && (CheckedIsUsable(cards, q); FoundOrPriceable(s, q))
  {
    CardCheckExactly(cards, q, snapshot);
    if CheckedCard(CardNow(cards, q), q, snapshot).Ok? {
      CheckedIsValid(cards, q, snapshot);
      Replay.CalculateSucceedsExactly(s, q);
    }
  }

  /** A usable card has valid pricing. */
  lemma CheckedIsUsable(cards: Store, q: Request)
    requires Lifecycle.Histories(cards) && Usable(cards, q)
    ensures Pricing.ValidCard(q.card.terms.pricing)
  {
    var c :| CardAnswers.Latest(cards, q.card.id, q.card.version, c) && c.terms == q.card.terms;
    assert Lifecycle.Sound(cards, IdOf(c));
  }

  ghost predicate FoundOrPriceable(s: Costs, q: Request)
    requires ValidRequest(q)
  {
    if FindIn(s, IdentityOf(q)) == Ok(None) then Replay.Priceable(q) else FindIn(s, IdentityOf(q)).Ok?
  }

  // ---- later calls ----

  /** A card that was published once has a current snapshot with the same terms, which is
      published or retired. */
  lemma PublishedRemains(before: Store, after: Store, c: RateCard) returns (e: RateCard)
    requires Lifecycle.Histories(after) && Lifecycle.Grows(before, after)
    requires IsLatest(before, c) && c.state == Published
    ensures CardAnswers.LatestOf(after, c.id, c.version) == Some(e) && IsLatest(after, e) && SameCard(c, e)
    ensures e.terms == c.terms && e.state != Draft
  {
    assert Lifecycle.Holds(after, c);
    e := Listing.LatestExists(after, c);
    Listing.FrozenTerms(after, c, e);
    CardAnswers.LatestOfIs(after, c.id, c.version, e);
  }

  lemma LatestOfMeans(cards: Store, id: Name, version: nat)
    ensures var latest := CardAnswers.LatestOf(cards, id, version);
      latest.Some? ==> IsLatest(cards, latest.value) && latest.value.id == id && latest.value.version == version
  {
  }

  /** What the card check says later about a request that it passed before. */
  lemma CheckLater(before: Store, after: Store, q: Request, snapshot: bool)
    requires Lifecycle.Histories(after) && Lifecycle.Grows(before, after)
    requires CheckedCard(CardNow(before, q), q, snapshot).Ok?
    ensures CardNow(after, q).Some?
    ensures CheckedCard(CardNow(after, q), q, snapshot)
         == if CardNow(after, q).value.state == Published then Ok(q.card) else Err(InvalidCost)
  {
    var c := CardNow(before, q).value;
    LatestOfMeans(before, q.card.id, q.card.version);
    var e := PublishedRemains(before, after, c);
  }

  /** Repeated calls, over every run of the rate cards and every serial run of calculations:
      once a call has passed the card check and a client has been told of success for its
      inputs, the same call at any later point returns that calculation with its records,
      marked as replayed, if the card is still published, and is refused if it is not.  The
      store stays as it is either way. */
  lemma RepeatedCallReplays(cardActions: seq<Lifecycle.Action>, k: nat, actions: seq<CalculationRuns.Action>, i: nat,
                            c: CalculationRuns.Client, q: Request, snapshot: bool)
    requires k <= |cardActions| && CheckedCard(CardNow(Lifecycle.Run(cardActions[..k]).store, q), q, snapshot).Ok?
    requires CalculationRuns.SerialRun(actions) && i <= |actions|
    requires Allocation.ValidSpec(q.spec.weights) && CheckRequest(q) == None
    requires Told(CalculationRuns.Run(actions[..i]), c, q)
    ensures var cards, store := Lifecycle.Run(cardActions).store, CalculationRuns.Run(actions).store;
      && Lifecycle.Histories(cards) && CardNow(cards, q).Some?
      && CallIn(cards, store, q, snapshot)
         == Answer(store, if CardNow(cards, q).value.state == Published
                          then Ok(CalculationRuns.Run(actions[..i]).PhaseOf(c).result.value.(replayed := true))
                          else Err(InvalidCost))
  {
    var before, cards := Lifecycle.Run(cardActions[..k]).store, Lifecycle.Run(cardActions).store;
    Lifecycle.RunInv(cardActions[..k]);
    Lifecycle.RunInv(cardActions);
    Lifecycle.AppendOnly(cardActions, k);
    CheckedIsValid(before, q, snapshot);
    CheckLater(before, cards, q, snapshot);
    Replay.RepeatedInputsReplay(actions, i, c, q);
  }

  /** The client has been told of success for the request's inputs. */
  predicate Told(s: CalculationRuns.System, c: CalculationRuns.Client, q: Request) {
    && s.PhaseOf(c).Finished? && s.PhaseOf(c).result.Ok?
    && s.PhaseOf(c).result.value.calculation.identity == IdentityOf(q)
  }
}
