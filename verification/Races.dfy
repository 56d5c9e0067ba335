/** Why publications must not interleave: two clients check for overlaps before either has
    published, and both succeed. */
module Races {
  import opened Decimals
  import opened RateCards
  import opened Lifecycle
  import opened Listing
  import opened Publishing

  function Resume(s: System, actions: seq<Action>): System
    decreases |actions|
  {
    if actions == [] then s else Resume(Step(s, actions[0]), actions[1..])
  }

  lemma {:induction false} ResumeRun(actions: seq<Action>, more: seq<Action>)
    ensures Resume(Run(actions), more) == Run(actions + more)
    decreases |more|
  {
    if more == [] {
      assert actions + more == actions;
    } else {
      var next := actions + [more[0]];
      assert next[..|next| - 1] == actions;
      ResumeRun(next, more[1..]);
      assert next + more[1..] == actions + more;
    }
  }

  predicate Free(s: System, c: Client) { s.PhaseOf(c).Idle? || s.PhaseOf(c).Finished? }

  /** A client reads, decides to append, and appends undisturbed. */
  lemma ReadAndPut(s: System, c: Client, op: Operation, seen: Option<RateCard>, card: RateCard, stale: bool)
    requires Free(s, c) && CanRead(s.store, op, seen)
    requires AfterRead(op, seen) == Putting(card, stale) && IdOf(card) !in s.store
    ensures var t := Resume(s, [Read(c, op, seen), Put(c)]);
      t.store == s.store[IdOf(card) := card] && Free(t, c) && forall e :: e != c ==> t.PhaseOf(e) == s.PhaseOf(e)
  {
    var first := Step(s, Read(c, op, seen));
    assert [Read(c, op, seen), Put(c)][1..] == [Put(c)];
    assert Resume(s, [Read(c, op, seen), Put(c)]) == Resume(first, [Put(c)]) == Resume(Step(first, Put(c)), []);
  }

  function PublishedFrom(c: RateCard, at: int): RateCard {
    c.(revision := c.revision + 1, state := Published, publishedAt := Some(at))
  }

  ghost predicate ReadyToPublish(s: System, c: RateCard) {
    && IsLatest(s.store, c) && c.state == Validated && IdOf(PublishedFrom(c, 0)) !in s.store
    && Listed(s.store, ANY.(pricingKey := Some(c.terms.key)), Some(Published)) == {}
  }

  /** A client reads its card and checks it against a listing with which it does not collide. */
  lemma CheckAgainst(s: System, client: Client, c: RateCard, at: int, listed: set<RateCard>)
    requires Free(s, client) && Holds(s.store, c) && c.state == Validated
    requires forall other <- listed :: !Collides(c, other)
    ensures Resume(s, [Read(client, Publish(c.id, c.version, c.revision, at), Some(c)), CheckOverlap(client, listed)])
         == s.With(client, Checked(c, at))
  {
    var read := Read(client, Publish(c.id, c.version, c.revision, at), Some(c));
    var first := Step(s, read);
    assert first == s.With(client, Phase.Publishing(c, at));
    var second := Step(first, CheckOverlap(client, listed));
    assert second.clients == s.With(client, Checked(c, at)).clients;
    assert [read, CheckOverlap(client, listed)][1..] == [CheckOverlap(client, listed)];
    assert Resume(s, [read, CheckOverlap(client, listed)]) == Resume(first, [CheckOverlap(client, listed)])
        == Resume(second, []);
  }

  /** A client that has checked reads its card again and publishes it. */
  lemma RereadAndPut(s: System, client: Client, c: RateCard, at: int)
    requires s.PhaseOf(client) == Checked(c, at) && Holds(s.store, c) && c.state == Validated
    requires IdOf(PublishedFrom(c, at)) !in s.store
    ensures var t := Resume(s, [Reread(client, Some(c)), Put(client)]);
      && t.store == s.store[IdOf(PublishedFrom(c, at)) := PublishedFrom(c, at)]
      && forall e :: e != client ==> t.PhaseOf(e) == s.PhaseOf(e)
  {
    var first := Step(s, Reread(client, Some(c)));
    assert first.PhaseOf(client) == Putting(PublishedFrom(c, at), true);
    assert [Reread(client, Some(c)), Put(client)][1..] == [Put(client)];
    assert Resume(s, [Reread(client, Some(c)), Put(client)]) == Resume(first, [Put(client)])
        == Resume(Step(first, Put(client)), []);
  }

  lemma {:induction false} ResumeInTwo(s: System, a: seq<Action>, b: seq<Action>)
    ensures Resume(s, a + b) == Resume(Resume(s, a), b)
    decreases |a|
  {
    if a == [] {
      assert a + b == b;
    } else {
      assert (a + b)[1..] == a[1..] + b;
      ResumeInTwo(Step(s, a[0]), a[1..], b);
    }
  }

  /** The eight steps of two interleaved publications, each with the true listing. */
  function Race(a: RateCard, b: RateCard, at: int): seq<Action> {
    [Read(0, Publish(a.id, a.version, a.revision, at), Some(a)), CheckOverlap(0, {})]
    + [Read(1, Publish(b.id, b.version, b.revision, at), Some(b)), CheckOverlap(1, {})]
    + [Reread(0, Some(a)), Put(0)]
    + [Reread(1, Some(b)), Put(1)]
  }

  lemma StillLatest(store: Store, c: RateCard, at: int)
    requires IsLatest(store, c) && IdOf(PublishedFrom(c, at)) !in store
    ensures NowPublished(store[IdOf(PublishedFrom(c, at)) := PublishedFrom(c, at)], PublishedFrom(c, at))
  {
  }

  lemma OthersStayLatest(store: Store, c: RateCard, other: RateCard)
    requires NowPublished(store, c) && !SameCard(c, other) && IdOf(other) !in store
    ensures NowPublished(store[IdOf(other) := other], c)
  {
  }

  /** From any state with two validated cards and nothing published for their key, both are
      published, whether or not they overlap. */
  lemma BothPublish(s: System, a: RateCard, b: RateCard, at: int)
    requires Free(s, 0) && Free(s, 1) && ReadyToPublish(s, a) && ReadyToPublish(s, b) && !SameCard(a, b)
    ensures var t := Resume(s, Race(a, b, at));
      NowPublished(t.store, PublishedFrom(a, at)) && NowPublished(t.store, PublishedFrom(b, at))
  {
    var r0 := [Read(0, Publish(a.id, a.version, a.revision, at), Some(a)), CheckOverlap(0, {})];
    var r1 := [Read(1, Publish(b.id, b.version, b.revision, at), Some(b)), CheckOverlap(1, {})];
    var r2 := [Reread(0, Some(a)), Put(0)];
    var r3 := [Reread(1, Some(b)), Put(1)];
    ResumeInTwo(s, r0 + r1 + r2, r3);
    ResumeInTwo(s, r0 + r1, r2);
    ResumeInTwo(s, r0, r1);
    CheckAgainst(s, 0, a, at, {});
    var s1 := s.With(0, Checked(a, at));
    assert s1.PhaseOf(1) == s.PhaseOf(1);
    CheckAgainst(s1, 1, b, at, {});
    var s2 := s1.With(1, Checked(b, at));
    RereadAndPut(s2, 0, a, at);
    var s3 := Resume(s2, r2);
    StillLatest(s.store, a, at);
    assert s3.store[IdOf(b)] == b;
    RereadAndPut(s3, 1, b, at);
    OthersStayLatest(s3.store, PublishedFrom(a, at), PublishedFrom(b, at));
    assert IsLatest(s3.store, b) by {
      forall k | k in s3.store && SameCard(s3.store[k], b) ensures s3.store[k].revision <= b.revision {
        assert k in s.store;
      }
    }
    StillLatest(s3.store, b, at);
  }

  /** A card of the sample pricing key. */
  function SampleCard(id: Name, state: PublicationState): RateCard {
    Sample(1, if state == Draft then 1 else 2).(id := id, state := state)
  }

  /** Creating a card and validating it. */
  function CreateAndValidate(c: Client, id: Name): seq<Action> {
    [Read(c, Create(SampleCard(id, Draft)), None), Put(c)]
    + [Read(c, Move(id, 1, 1, Validated, 0), Some(SampleCard(id, Draft))), Put(c)]
  }

  lemma CreatesAndValidates(s: System, c: Client, id: Name)
    requires Free(s, c) && IdOf(SampleCard(id, Draft)) !in s.store && IdOf(SampleCard(id, Validated)) !in s.store
    ensures var t := Resume(s, CreateAndValidate(c, id));
      && t.store == s.store[IdOf(SampleCard(id, Draft)) := SampleCard(id, Draft)]
                           [IdOf(SampleCard(id, Validated)) := SampleCard(id, Validated)]
      && Free(t, c) && forall e :: e != c ==> t.PhaseOf(e) == s.PhaseOf(e)
  {
    var draft, validated := SampleCard(id, Draft), SampleCard(id, Validated);
    var create := [Read(c, Create(draft), None), Put(c)];
    var validate := [Read(c, Move(id, 1, 1, Validated, 0), Some(draft)), Put(c)];
    ResumeInTwo(s, create, validate);
    ReadAndPut(s, c, Create(draft), None, draft, false);
    ReadAndPut(Resume(s, create), c, Move(id, 1, 1, Validated, 0), Some(draft), validated, true);
  }

  lemma NothingPublished(store: Store, f: Filter)
    requires forall k <- store :: store[k].state != Published
    ensures Listed(store, f, Some(Published)) == {}
  {
  }

  function BothValidated(store: Store, a: Name, b: Name): Store {
    store[IdOf(SampleCard(a, Draft)) := SampleCard(a, Draft)][IdOf(SampleCard(a, Validated)) := SampleCard(a, Validated)]
         [IdOf(SampleCard(b, Draft)) := SampleCard(b, Draft)][IdOf(SampleCard(b, Validated)) := SampleCard(b, Validated)]
  }

  lemma PreparedRun() returns (actions: seq<Action>)
    ensures Run(actions).store == BothValidated(map[], 1, 2) && Free(Run(actions), 0) && Free(Run(actions), 1)
  {
    var first, second := CreateAndValidate(0, 1), CreateAndValidate(1, 2);
    assert Run([]) == INITIAL;
    ResumeRun([], first);
    assert [] + first == first;
    CreatesAndValidates(INITIAL, 0, 1);
    ResumeRun(first, second);
    CreatesAndValidates(Run(first), 1, 2);
    actions := first + second;
  }

  lemma PreparedIsReady(s: System, a: Name, b: Name)
    requires s.store == BothValidated(map[], a, b) && a != b
    ensures ReadyToPublish(s, SampleCard(a, Validated)) && ReadyToPublish(s, SampleCard(b, Validated))
  {
    NothingPublished(s.store, ANY.(pricingKey := Some(SampleCard(a, Validated).terms.key)));
  }

  // ---- adjacent intervals ----

  /** The sample card with the interval [start, start + 10). */
  function CardFrom(id: Name, start: int, state: PublicationState): RateCard {
    var c := SampleCard(id, state);
    c.(terms := c.terms.(start := start, end := start + 10))
  }

  /** The eight steps that create, validate and publish a card when the listing is `listed`. */
  function PublishAlone(c: Client, id: Name, start: int, listed: set<RateCard>): seq<Action> {
    [Read(c, Create(CardFrom(id, start, Draft)), None), Put(c)]
    + [Read(c, Move(id, 1, 1, Validated, 0), Some(CardFrom(id, start, Draft))), Put(c)]
    + [Read(c, Publish(id, 1, 2, 5), Some(CardFrom(id, start, Validated))), CheckOverlap(c, listed)]
    + [Reread(c, Some(CardFrom(id, start, Validated))), Put(c)]
  }

  function AfterPublication(store: Store, id: Name, start: int): Store {
    store[SnapshotId(id, 1, 1) := CardFrom(id, start, Draft)][SnapshotId(id, 1, 2) := CardFrom(id, start, Validated)]
         [SnapshotId(id, 1, 3) := PublishedFrom(CardFrom(id, start, Validated), 5)]
  }

  /** Undisturbed, the card is published whenever nothing in the listing collides with it. */
  lemma PublishesAlone(s: System, c: Client, id: Name, start: int, listed: set<RateCard>)
    requires Free(s, c) && forall k <- s.store :: k.id != id
    requires forall other <- listed :: !Collides(CardFrom(id, start, Validated), other)
    ensures Resume(s, PublishAlone(c, id, start, listed)).store == AfterPublication(s.store, id, start)
    ensures forall e :: e != c ==> Resume(s, PublishAlone(c, id, start, listed)).PhaseOf(e) == s.PhaseOf(e)
  {
    var draft, validated := CardFrom(id, start, Draft), CardFrom(id, start, Validated);
    var create := [Read(c, Create(draft), None), Put(c)];
    var validate := [Read(c, Move(id, 1, 1, Validated, 0), Some(draft)), Put(c)];
    var check := [Read(c, Publish(id, 1, 2, 5), Some(validated)), CheckOverlap(c, listed)];
    var publish := [Reread(c, Some(validated)), Put(c)];
    ResumeInTwo(s, create + validate + check, publish);
    ResumeInTwo(s, create + validate, check);
    ResumeInTwo(s, create, validate);
    ReadAndPut(s, c, Create(draft), None, draft, false);
    ReadAndPut(Resume(s, create), c, Move(id, 1, 1, Validated, 0), Some(draft), validated, true);
    var ready := Resume(Resume(s, create), validate);
    CheckAgainst(ready, c, validated, 5, listed);
    RereadAndPut(ready.With(c, Checked(validated, 5)), c, validated, 5);
  }

  /** After one publication the listing of the pricing key is that card. */
  lemma OneListed(store: Store, id: Name, start: int)
    requires store == AfterPublication(map[], id, start)
    ensures Listed(store, ANY.(pricingKey := Some(CardFrom(id, start, Published).terms.key)), Some(Published))
         == {PublishedFrom(CardFrom(id, start, Validated), 5)}
  {
    var c := PublishedFrom(CardFrom(id, start, Validated), 5);
    ListedSomewhere(store, c);
    assert IsLatestAdmitted(store, ANY.(pricingKey := Some(c.terms.key)), c);
  }

  const EARLIER := PublishedFrom(CardFrom(1, 0, Validated), 5)
  const LATER := PublishedFrom(CardFrom(2, 10, Validated), 5)

  lemma BothNowPublished(store: Store)
    requires store == AfterPublication(AfterPublication(map[], 1, 0), 2, 10)
    ensures NowPublished(store, EARLIER) && NowPublished(store, LATER)
  {
  }

  lemma AdjacentDoNotCollide()
    ensures !Collides(CardFrom(2, 10, Validated), EARLIER)
  {
  }

  /** A run that publishes [0, 10) and then [10, 20) for one pricing key, each after a check
      against the true listing. */
  lemma AdjacentCardsArePublished() returns (first: seq<Action>, actions: seq<Action>)
    ensures actions == first + PublishAlone(1, 2, 10, {EARLIER})
    ensures Listed(Run(first).store, ANY.(pricingKey := Some(EARLIER.terms.key)), Some(Published)) == {EARLIER}
    ensures NowPublished(Run(actions).store, EARLIER) && NowPublished(Run(actions).store, LATER)
    ensures !SameCard(EARLIER, LATER) && EARLIER.terms.key == LATER.terms.key && EARLIER.terms.end == LATER.terms.start
  {
    first := EarlierPublished();
    OneListed(Run(first).store, 1, 0);
    actions := first + PublishAlone(1, 2, 10, {EARLIER});
    LaterPublished(first);
    BothNowPublished(Run(actions).store);
  }

  lemma EarlierPublished() returns (first: seq<Action>)
    ensures Run(first).store == AfterPublication(map[], 1, 0) && Free(Run(first), 1)
  {
    first := PublishAlone(0, 1, 0, {});
    ResumeRun([], first);
    assert [] + first == first && Run([]) == INITIAL;
    PublishesAlone(INITIAL, 0, 1, 0, {});
  }

  lemma LaterPublished(first: seq<Action>)
    requires Run(first).store == AfterPublication(map[], 1, 0) && Free(Run(first), 1)
    ensures Run(first + PublishAlone(1, 2, 10, {EARLIER})).store == AfterPublication(AfterPublication(map[], 1, 0), 2, 10)
  {
    AdjacentDoNotCollide();
    ResumeRun(first, PublishAlone(1, 2, 10, {EARLIER}));
    PublishesAlone(Run(first), 1, 2, 10, {EARLIER});
  }

  // ---- overlapping intervals ----

  /** A run that ends with two published cards of one pricing key whose intervals overlap, each
      published after a check against the true listing. */
  lemma InterleavedPublicationsOverlap() returns (actions: seq<Action>, a: RateCard, b: RateCard)
    ensures NowPublished(Run(actions).store, a) && NowPublished(Run(actions).store, b)
    ensures !SameCard(a, b) && a.terms.key == b.terms.key && ShareInstant(a.terms, b.terms)
  {
    var prefix := PreparedRun();
    var va, vb := SampleCard(1, Validated), SampleCard(2, Validated);
    PreparedIsReady(Run(prefix), 1, 2);
    BothPublish(Run(prefix), va, vb, 5);
    actions := prefix + Race(va, vb, 5);
    ResumeRun(prefix, Race(va, vb, 5));
    a, b := PublishedFrom(va, 5), PublishedFrom(vb, 5);
    assert During(0, a.terms) && During(0, b.terms);
  }
}
