/** list_rate_cards filters the stored snapshots before it keeps the latest of each card.
    When that is the same as filtering the latest snapshots. */
module Listing {
  import opened Decimals
  import opened RateCards
  import opened Lifecycle
  import Pricing
  import Rounding

  datatype Filter = Filter(provider: Option<Name>, product: Option<Name>, meterId: Option<Name>,
                           meterVersion: Option<nat>, pricingKey: Option<PricingKey>)

  predicate Wants<T(==)>(o: Option<T>, x: T) { o.None? || o.value == x }

  predicate Admits(f: Filter, c: RateCard) {
    var k := c.terms.key;
    && Wants(f.provider, k.provider) && Wants(f.product, k.product)
    && Wants(f.meterId, k.meterId) && Wants(f.meterVersion, k.meterVersion)
    && Wants(f.pricingKey, k)
  }

  /** Every criterion that is given is the card's own. */
  predicate Asked(f: Filter, c: RateCard) {
    && (f.provider == None || f.provider == Some(c.terms.key.provider))
    && (f.product == None || f.product == Some(c.terms.key.product))
    && (f.meterId == None || f.meterId == Some(c.terms.key.meterId))
    && (f.meterVersion == None || f.meterVersion == Some(c.terms.key.meterVersion))
    && (f.pricingKey == None || f.pricingKey == Some(c.terms.key))
  }

  lemma AdmitsExactly(f: Filter, c: RateCard)
    ensures Admits(f, c) <==> Asked(f, c)
  {
  }

  /** The latest of the snapshots that pass the filter: what the query loop keeps. */
  ghost predicate IsLatestAdmitted(store: Store, f: Filter, c: RateCard) {
    && Holds(store, c) && Admits(f, c)
    && forall k <- store :: SameCard(store[k], c) && Admits(f, store[k]) ==>
         store[k].revision <= c.revision
  }

  /** What list_rate_cards returns. */
  ghost function Listed(store: Store, f: Filter, state: Option<PublicationState>): set<RateCard> {
    set c <- store.Values | IsLatestAdmitted(store, f, c) && Wants(state, c.state)
  }

  /** The cards whose current snapshot passes the filter and has the state. */
  ghost function Current(store: Store, f: Filter, state: Option<PublicationState>): set<RateCard> {
    set c <- store.Values | IsLatest(store, c) && Asked(f, c) && (state == None || state == Some(c.state))
  }

  /** Once a card has left draft its terms are those of every later snapshot. */
  lemma FrozenTerms(store: Store, c: RateCard, later: RateCard)
    requires Histories(store) && Holds(store, c) && Holds(store, later)
    requires SameCard(c, later) && c.revision <= later.revision && c.state != Draft
    ensures later.terms == c.terms && later.state != Draft
  {
    var k := IdOf(later);
    var d := HistoryShape(store, k);
    assert Sound(store, IdOf(c));
    assert k.(revision := c.revision) == IdOf(c) && k.(revision := later.revision) == k;
    assert At(store, k, c.revision).state == StateAt(d, c.revision);
    assert At(store, k, later.revision).state == StateAt(d, later.revision);
    assert At(store, k, c.revision).terms == At(store, k, d).terms;
    assert At(store, k, later.revision).terms == At(store, k, d).terms;
  }

  lemma ListedSomewhere(store: Store, c: RateCard)
    requires Holds(store, c)
    ensures c in store.Values
  {
    assert IdOf(c) in store.Keys;
  }

  /** Filtering first is sound for validated, published and retired cards, for every filter,
      in every store that the protocol can produce. */
  lemma FilterBeforeLatest(store: Store, f: Filter, state: PublicationState)
    requires Histories(store) && state != Draft
    ensures Listed(store, f, Some(state)) == Current(store, f, Some(state))
  {
    forall c | c in Listed(store, f, Some(state)) ensures c in Current(store, f, Some(state)) {
      forall k | k in store && SameCard(store[k], c) ensures store[k].revision <= c.revision {
        if store[k].revision > c.revision {
          assert Sound(store, k);
          FrozenTerms(store, c, store[k]);
        }
      }
    }
  }

  lemma FilterBeforeLatestOnRuns(actions: seq<Action>, f: Filter, state: PublicationState)
    requires state != Draft
    ensures Listed(Run(actions).store, f, Some(state)) == Current(Run(actions).store, f, Some(state))
  {
    RunInv(actions);
    FilterBeforeLatest(Run(actions).store, f, state);
  }

  // ---- listings that include drafts ----

  /** No card has been moved out of the filter by a later snapshot. */
  ghost predicate Settled(store: Store, f: Filter) {
    forall k, l | k in store && l in store && SameCard(store[k], store[l]) ::
      Admits(f, store[k]) && IsLatest(store, store[l]) ==> Admits(f, store[l])
  }

  /** Every stored card has a latest snapshot, also among those that pass a filter. */
  lemma {:induction false} LatestAdmittedExists(store: Store, f: Filter, c: RateCard) returns (m: RateCard)
    requires Histories(store) && Holds(store, c) && Admits(f, c)
    ensures IsLatestAdmitted(store, f, m) && SameCard(m, c) && m.revision >= c.revision
    decreases set k <- store | SameCard(store[k], c) && store[k].revision > c.revision
  {
    if k :| k in store && SameCard(store[k], c) && Admits(f, store[k]) && store[k].revision > c.revision {
      assert Sound(store, k);
      var above := set j <- store | SameCard(store[j], c) && store[j].revision > c.revision;
      var next := set j <- store | SameCard(store[j], store[k]) && store[j].revision > store[k].revision;
      assert k in above && k !in next && next <= above;
      m := LatestAdmittedExists(store, f, store[k]);
    } else {
      m := c;
    }
  }

  const ANY := Filter(None, None, None, None, None)

  lemma LatestExists(store: Store, c: RateCard) returns (m: RateCard)
    requires Histories(store) && Holds(store, c)
    ensures IsLatest(store, m) && SameCard(m, c) && m.revision >= c.revision
  {
    m := LatestAdmittedExists(store, ANY, c);
  }

  /** A listing of all states, or of drafts, is right exactly when no card was moved out of
      the filter by replacing its draft.  The code does not check this. */
  lemma DraftListingExactly(store: Store, f: Filter, state: Option<PublicationState>)
    requires Histories(store) && (state == None || state == Some(Draft))
    ensures Listed(store, f, state) == Current(store, f, state) <==> Settled(store, f)
  {
    if Settled(store, f) {
      forall c | c in Listed(store, f, state) ensures c in Current(store, f, state) {
        var m := LatestExists(store, c);
        ListedSomewhere(store, m);
        assert Admits(f, store[IdOf(m)]) by { assert Admits(f, store[IdOf(c)]); }
        LatestIsUnique(store, c, m);
      }
    } else {
      var k, l :| k in store && l in store && SameCard(store[k], store[l]) && Admits(f, store[k])
        && IsLatest(store, store[l]) && !Admits(f, store[l]);
      assert Sound(store, k) && Sound(store, l);
      var m := LatestAdmittedExists(store, f, store[k]);
      ListedSomewhere(store, m);
      if m.state != Draft { FrozenTerms(store, m, store[l]); }
      assert m in Listed(store, f, state);
      if m in Current(store, f, state) { SameRevision(store, m, store[l]); }
    }
  }

  lemma LatestIsUnique(store: Store, c: RateCard, m: RateCard)
    requires Holds(store, c) && IsLatest(store, m) && SameCard(c, m) && m.revision <= c.revision
    ensures c == m
  {
    assert SameCard(store[IdOf(c)], m);
  }

  lemma SameRevision(store: Store, a: RateCard, b: RateCard)
    requires IsLatest(store, a) && IsLatest(store, b) && SameCard(a, b)
    ensures a == b
  {
    assert SameCard(store[IdOf(a)], b) && SameCard(store[IdOf(b)], a);
  }

  function Sample(provider: Name, revision: nat): RateCard {
    var pricing := Pricing.Card(Pricing.FlatUnit(1), Rounding.Policy(2, 12, Rounding.HalfEven, Rounding.HalfEven));
    RateCard(7, 1, revision,
             Terms(PricingKey(provider, 0, 0, 1, map[]), 0, 0, 10, pricing, map[], None),
             Draft, 0, None)
  }

  /** A draft for provider 1 is replaced by one for provider 2.  Listing the drafts of
      provider 1 still returns the replaced snapshot. */
  lemma ReplacedDraftStillListed() returns (actions: seq<Action>)
    ensures var f := ANY.(provider := Some(1));
      && Sample(1, 1) in Listed(Run(actions).store, f, Some(Draft))
      && Current(Run(actions).store, f, Some(Draft)) == {}
  {
    var a0 := Read(0, Create(Sample(1, 1)), None);
    var a2 := Read(0, Replace(Sample(2, 2), 1), Some(Sample(1, 1)));
    actions := [a0, Put(0), a2, Put(0)];
    assert actions[..3] == [a0, Put(0), a2] && [a0, Put(0), a2][..2] == [a0, Put(0)];
    assert [a0, Put(0)][..1] == [a0] && [a0][..0] == [];
    assert Run([]) == INITIAL && CanRead(INITIAL.store, a0.op, None);
    var s1 := Run([a0]);
    assert s1 == Step(INITIAL, a0);
    assert s1 == System(map[], map[0 := Putting(Sample(1, 1), false)]);
    var s2 := Run([a0, Put(0)]);
    assert s2.store == map[SnapshotId(7, 1, 1) := Sample(1, 1)];
    var s3 := Run([a0, Put(0), a2]);
    assert s3.PhaseOf(0) == Putting(Sample(2, 2), true);
    var s4 := Run(actions);
    assert s4.store == map[SnapshotId(7, 1, 1) := Sample(1, 1), SnapshotId(7, 1, 2) := Sample(2, 2)];
    OldDraftListed(s4.store);
  }

  lemma OldDraftListed(store: Store)
    requires store == map[SnapshotId(7, 1, 1) := Sample(1, 1), SnapshotId(7, 1, 2) := Sample(2, 2)]
    ensures var f := ANY.(provider := Some(1));
      Sample(1, 1) in Listed(store, f, Some(Draft)) && Current(store, f, Some(Draft)) == {}
  {
    ListedSomewhere(store, Sample(1, 1));
    assert SameCard(store[SnapshotId(7, 1, 2)], Sample(1, 1));
  }
}
