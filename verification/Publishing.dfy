/** Published cards with one pricing key do not overlap, as long as their publications do
    not interleave; and what that means for resolution. */
module Publishing {
  import opened Decimals
  import opened RateCards
  import opened Lifecycle
  import opened Listing

  /** The snapshot a client has checked and is about to publish. */
  function InPublication(p: Phase): Option<RateCard> {
    match p
    case Checked(current, _) => Some(current)
    case Putting(card, _) => if card.state == Published then Some(card) else None
    case _ => None
  }

  predicate PublishesKey(p: Phase, key: PricingKey) {
    InPublication(p).Some? && InPublication(p).value.terms.key == key
  }

  /** A publication checks against the published cards of this moment, and only when no other
      client is between its own check and its put for the same pricing key.  All other
      actions are unrestricted. */
  ghost predicate SerialAction(s: System, a: Action) {
    a.CheckOverlap? && s.PhaseOf(a.client).Publishing? ==>
      var key := s.PhaseOf(a.client).current.terms.key;
      && a.listed == Listed(s.store, ANY.(pricingKey := Some(key)), Some(Published))
      && forall e <- s.clients :: e != a.client ==> !PublishesKey(s.clients[e], key)
  }

  ghost predicate SerialRun(actions: seq<Action>) {
    forall i :: 0 <= i < |actions| ==> SerialAction(Run(actions[..i]), actions[i])
  }

  ghost predicate NowPublished(store: Store, c: RateCard) {
    IsLatest(store, c) && c.state == Published
  }

  /** `c` and the currently published card `b` are the same card, priced apart, or disjoint. */
  ghost predicate Apart(c: RateCard, b: RateCard) {
    SameCard(c, b) || c.terms.key != b.terms.key || !ShareInstant(c.terms, b.terms)
  }

  ghost predicate ClearOf(store: Store, c: RateCard) {
    forall b <- store.Values :: NowPublished(store, b) ==> Apart(c, b)
  }

  ghost predicate Disjoint(store: Store) {
    forall a <- store.Values :: NowPublished(store, a) ==> ClearOf(store, a)
  }

  ghost predicate ClientsClear(s: System) {
    forall c <- s.clients :: InPublication(s.clients[c]).Some? ==>
      ClearOf(s.store, InPublication(s.clients[c]).value)
  }

  ghost predicate OnePerKey(s: System) {
    forall c, e | c in s.clients && e in s.clients && c != e && InPublication(s.clients[c]).Some? ::
      !PublishesKey(s.clients[e], InPublication(s.clients[c]).value.terms.key)
  }

  ghost predicate SerialInv(s: System) {
    Inv(s) && Disjoint(s.store) && ClientsClear(s) && OnePerKey(s)
  }

  /** Appending a snapshot publishes nothing but that snapshot itself. */
  lemma PublishedAfterPut(store: Store, card: RateCard, b: RateCard)
    requires NowPublished(PutIfAbsent(store, card), b)
    ensures b == card || (b in store.Values && NowPublished(store, b))
  {
    var after := PutIfAbsent(store, card);
    if b != card {
      assert IdOf(b) in store && store[IdOf(b)] == b;
      ListedSomewhere(store, b);
      forall k | k in store && SameCard(store[k], b) ensures store[k].revision <= b.revision {
        assert k in after && after[k] == store[k];
      }
    }
  }

  lemma ClearAfterPut(store: Store, card: RateCard, c: RateCard)
    requires ClearOf(store, c) && (card.state == Published ==> Apart(c, card))
    ensures ClearOf(PutIfAbsent(store, card), c)
  {
    forall b | b in PutIfAbsent(store, card).Values && NowPublished(PutIfAbsent(store, card), b)
      ensures Apart(c, b)
    {
      PublishedAfterPut(store, card, b);
    }
  }

  /** One published snapshot keeps the published cards apart exactly when it is clear of those
      that are published at the moment of the put. */
  lemma PutKeepsDisjointExactly(store: Store, card: RateCard)
    requires Histories(store) && Disjoint(store) && IdOf(card) !in store && card.state == Published
    requires card.revision >= 1
    ensures Disjoint(PutIfAbsent(store, card)) <==> ClearOf(store, card)
  {
    var after := PutIfAbsent(store, card);
    forall k | k in after && SameCard(after[k], card) ensures after[k].revision <= card.revision {
      if k in store && store[k].revision > card.revision {
        assert Sound(store, k);
        GapFree(store, k, card.revision);
      }
    }
    ListedSomewhere(after, card);
    if Disjoint(after) {
      forall b | b in store.Values && NowPublished(store, b) ensures Apart(card, b) {
        if !SameCard(card, b) { StaysPublished(store, card, b); }
      }
    }
    if ClearOf(store, card) {
      forall x | x in after.Values && NowPublished(after, x) ensures ClearOf(after, x) {
        PublishedAfterPut(store, card, x);
        if x != card { ApartSymmetric(store, card, x); }
        ClearAfterPut(store, card, x);
      }
    }
  }

  lemma StaysPublished(store: Store, card: RateCard, b: RateCard)
    requires NowPublished(store, b) && !SameCard(card, b) && IdOf(card) !in store
    ensures NowPublished(PutIfAbsent(store, card), b) && b in PutIfAbsent(store, card).Values
  {
    ListedSomewhere(PutIfAbsent(store, card), b);
  }

  /** The listing used by the overlap check holds every published card of the key; this is
      where filtering before picking the latest matters. */
  lemma CheckIsComplete(store: Store, current: RateCard)
    requires Histories(store)
    requires forall other <- Listed(store, ANY.(pricingKey := Some(current.terms.key)), Some(Published)) ::
      !Collides(current, other)
    ensures ClearOf(store, current)
  {
    var f := ANY.(pricingKey := Some(current.terms.key));
    FilterBeforeLatest(store, f, Published);
    forall b | b in store.Values && NowPublished(store, b) ensures Apart(current, b) {
      if b.terms.key == current.terms.key {
        assert b in Current(store, f, Some(Published));
        assert !Collides(current, b);
      }
    }
  }

  /** Reading, starting over and crashing never put a client into publication. */
  lemma QuietSteps(s: System, a: Action)
    requires SerialInv(s) && (a.Read? || a.Crash?)
    ensures SerialInv(Step(s, a))
  {
    StepKeepsInv(s, a);
    var t := Step(s, a);
    if a.Read? { assert InPublication(AfterRead(a.op, a.seen)) == None || t == s; }
    forall c | c in t.clients && InPublication(t.clients[c]).Some? ensures c in s.clients && t.clients[c] == s.clients[c] { }
  }

  lemma CheckStep(s: System, a: Action)
    requires SerialInv(s) && SerialAction(s, a) && a.CheckOverlap?
    ensures SerialInv(Step(s, a))
  {
    StepKeepsInv(s, a);
    var p, t := s.PhaseOf(a.client), Step(s, a);
    if p.Publishing? && t.PhaseOf(a.client).Checked? {
      CheckIsComplete(s.store, p.current);
    }
  }

  lemma RereadStep(s: System, a: Action)
    requires SerialInv(s) && a.Reread?
    ensures SerialInv(Step(s, a))
  {
    StepKeepsInv(s, a);
    var p, t := s.PhaseOf(a.client), Step(s, a);
    if p.Checked? && t.PhaseOf(a.client).Putting? {
      assert PhaseInv(s.store, p);
      assert a.seen.value == p.current;
      assert t.PhaseOf(a.client).card.terms == p.current.terms;
      assert InPublication(s.clients[a.client]) == Some(p.current);
      forall b | b in s.store.Values && NowPublished(s.store, b)
        ensures Apart(t.PhaseOf(a.client).card, b)
      {
        assert Apart(p.current, b);
      }
    }
  }

  lemma PutStep(s: System, a: Action)
    requires SerialInv(s) && a.Put?
    ensures SerialInv(Step(s, a))
  {
    StepKeepsInv(s, a);
    var p, t := s.PhaseOf(a.client), Step(s, a);
    if p.Putting? {
      var card := p.card;
      assert a.client in s.clients && s.clients[a.client] == p;
      forall x | x in t.store.Values && NowPublished(t.store, x) ensures ClearOf(t.store, x) {
        PublishedAfterPut(s.store, card, x);
        if x == card {
          assert InPublication(p) == Some(card);
          ClearAfterPut(s.store, card, card);
        } else {
          if card.state == Published { ApartSymmetric(s.store, card, x); }
          ClearAfterPut(s.store, card, x);
        }
      }
      forall c | c in t.clients && InPublication(t.clients[c]).Some?
        ensures ClearOf(t.store, InPublication(t.clients[c]).value)
      {
        assert c != a.client && t.clients[c] == s.clients[c];
        if card.state == Published {
          assert InPublication(p) == Some(card);
          assert !PublishesKey(s.clients[c], card.terms.key);
        }
        ClearAfterPut(s.store, card, InPublication(s.clients[c]).value);
      }
    }
  }

  lemma ApartSymmetric(store: Store, card: RateCard, x: RateCard)
    requires ClearOf(store, card) && x in store.Values && NowPublished(store, x)
    ensures Apart(x, card)
  {
    assert Apart(card, x);
  }

  lemma {:induction false} SerialRunInv(actions: seq<Action>)
    requires SerialRun(actions)
    ensures SerialInv(Run(actions))
  {
    if actions != [] {
      var before, a := actions[..|actions| - 1], actions[|actions| - 1];
      forall i | 0 <= i < |before| ensures SerialAction(Run(before[..i]), before[i]) {
        assert before[..i] == actions[..i];
        assert SerialAction(Run(actions[..i]), actions[i]);
      }
      SerialRunInv(before);
      assert SerialAction(Run(before), a);
      match a {
        case CheckOverlap(_, _) => CheckStep(Run(before), a);
        case Reread(_, _) => RereadStep(Run(before), a);
        case Put(_) => PutStep(Run(before), a);
        case _ => QuietSteps(Run(before), a);
      }
    }
  }

  /** Over every run whose publications are serial per pricing key, currently published cards
      with the same pricing key have disjoint effective intervals. */
  lemma PublishedDisjoint(actions: seq<Action>, a: RateCard, b: RateCard)
    requires SerialRun(actions)
    requires NowPublished(Run(actions).store, a) && NowPublished(Run(actions).store, b)
    requires !SameCard(a, b) && a.terms.key == b.terms.key
    ensures !ShareInstant(a.terms, b.terms)
  {
    SerialRunInv(actions);
    ListedSomewhere(Run(actions).store, a);
    ListedSomewhere(Run(actions).store, b);
    assert Apart(a, b);
  }

  // ---- every run, in both directions ----

  /** The action publishes a snapshot. */
  predicate Publishes(s: System, a: Action) {
    var p := s.PhaseOf(a.client);
    a.Put? && p.Putting? && p.card.state == Published && IdOf(p.card) !in s.store
  }

  /** A snapshot that the action publishes is clear of the cards published at that moment. */
  ghost predicate ClearPublication(s: System, a: Action) {
    Publishes(s, a) ==> ClearOf(s.store, s.PhaseOf(a.client).card)
  }

  lemma QuietPutKeepsDisjoint(store: Store, card: RateCard)
    requires Disjoint(store) && card.state != Published
    ensures Disjoint(PutIfAbsent(store, card))
  {
    var after := PutIfAbsent(store, card);
    forall x | x in after.Values && NowPublished(after, x) ensures ClearOf(after, x) {
      PublishedAfterPut(store, card, x);
      ClearAfterPut(store, card, x);
    }
  }

  lemma StepDisjointExactly(s: System, a: Action)
    requires Inv(s) && Disjoint(s.store)
    ensures Disjoint(Step(s, a).store) <==> ClearPublication(s, a)
  {
    var p := s.PhaseOf(a.client);
    if a.Put? && p.Putting? {
      assert PhaseInv(s.store, p);
      if p.card.state != Published { QuietPutKeepsDisjoint(s.store, p.card); }
      else if IdOf(p.card) !in s.store { PutKeepsDisjointExactly(s.store, p.card); }
    }
  }

  ghost predicate ClearAt(actions: seq<Action>, i: nat)
    requires i < |actions|
  {
    ClearPublication(Run(actions[..i]), actions[i])
  }

  ghost predicate DisjointAt(actions: seq<Action>, i: nat)
    requires i <= |actions|
  {
    Disjoint(Run(actions[..i]).store)
  }

  lemma NextDisjoint(actions: seq<Action>, i: nat)
    requires i < |actions| && DisjointAt(actions, i)
    ensures DisjointAt(actions, i + 1) <==> ClearAt(actions, i)
  {
    assert actions[..i + 1][..i] == actions[..i];
    RunInv(actions[..i]);
    StepDisjointExactly(Run(actions[..i]), actions[i]);
  }

  lemma {:induction false} ClearKeepsDisjoint(actions: seq<Action>, n: nat)
    requires n <= |actions| && forall i :: 0 <= i < n ==> ClearAt(actions, i)
    ensures DisjointAt(actions, n)
  {
    if n == 0 {
      assert actions[..0] == [];
    } else {
      ClearKeepsDisjoint(actions, n - 1);
      NextDisjoint(actions, n - 1);
    }
  }

  /** Over every run: published cards of one pricing key are disjoint at every moment if and only
      if each snapshot was clear of the published ones when it was published. */
  lemma DisjointExactly(actions: seq<Action>)
    ensures (forall i :: 0 <= i <= |actions| ==> DisjointAt(actions, i))
       <==> (forall i :: 0 <= i < |actions| ==> ClearAt(actions, i))
  {
    if forall i :: 0 <= i < |actions| ==> ClearAt(actions, i) {
      forall i | 0 <= i <= |actions| ensures DisjointAt(actions, i) { ClearKeepsDisjoint(actions, i); }
    }
    if forall i :: 0 <= i <= |actions| ==> DisjointAt(actions, i) {
      forall i | 0 <= i < |actions| ensures ClearAt(actions, i) {
        assert DisjointAt(actions, i + 1);
        NextDisjoint(actions, i);
      }
    }
  }

  // ---- resolution ----

  ghost function Matches(store: Store, f: Filter, w: Window, dimensions: map<Name, Name>): set<RateCard> {
    set c <- Listed(store, f, Some(Published)) |
      Covers(c.terms, w) && MatchesDimensions(c.terms.key, dimensions)
  }

  /** resolve_rate_card: `f` asks for a provider, a product, a meter and its version. */
  ghost function Resolve(store: Store, f: Filter, w: Window, dimensions: map<Name, Name>): Result<RateCard> {
    var matches := Matches(store, f, w, dimensions);
    if matches == {} then Err(MissingRateCard)
    else if |matches| != 1 then Err(InvalidCost)
    else var c :| c in matches; Ok(c)
  }

  lemma TwoMembers<T>(s: set<T>, x: T)
    requires x in s && |s| != 1
    ensures exists y :: y in s && y != x
  {
    assert s != {x} by { assert |{x}| == 1; }
  }

  lemma Singleton<T>(s: set<T>, x: T, y: T)
    requires |s| == 1 && x in s && y in s
    ensures x == y
  {
    assert |s - {x}| == 0;
  }

  /** A current card that is published and fits the request. */
  ghost predicate Answers(store: Store, f: Filter, w: Window, dimensions: map<Name, Name>, c: RateCard) {
    && NowPublished(store, c) && Asked(f, c)
    && CoversAll(c.terms, w) && GivesAll(c.terms.key, dimensions)
  }

  lemma MatchesAnswer(store: Store, f: Filter, w: Window, dimensions: map<Name, Name>)
    requires Histories(store) && w.start < w.end
    ensures Matches(store, f, w, dimensions)
         == set c <- store.Values | Answers(store, f, w, dimensions, c)
  {
    FilterBeforeLatest(store, f, Published);
    forall c | c in store.Values
      ensures Covers(c.terms, w) <==> CoversAll(c.terms, w)
      ensures MatchesDimensions(c.terms.key, dimensions) <==> GivesAll(c.terms.key, dimensions)
    {
      CoversExactly(c.terms, w);
      MatchesDimensionsExactly(c.terms.key, dimensions);
    }
  }

  /** After a serial run, two cards that answer a request differ in their dimensions. */
  lemma AnswersDiffer(actions: seq<Action>, f: Filter, w: Window, dimensions: map<Name, Name>, a: RateCard, b: RateCard)
    requires SerialRun(actions) && w.start < w.end && a != b
    requires f.provider.Some? && f.product.Some? && f.meterId.Some? && f.meterVersion.Some?
    requires Answers(Run(actions).store, f, w, dimensions, a) && Answers(Run(actions).store, f, w, dimensions, b)
    ensures a.terms.key.dimensions != b.terms.key.dimensions
  {
    assert ShareInstant(a.terms, b.terms) by {
      assert Within(w.start, w) && During(w.start, a.terms) && During(w.start, b.terms);
    }
    if SameCard(a, b) { SameRevision(Run(actions).store, a, b); }
    if a.terms.key == b.terms.key { PublishedDisjoint(actions, a, b); }
  }

  /** Two different cards that answer the request. */
  ghost predicate TwoAnswers(store: Store, f: Filter, w: Window, dimensions: map<Name, Name>, a: RateCard, b: RateCard) {
    && Answers(store, f, w, dimensions, a) && Answers(store, f, w, dimensions, b)
    && a.terms.key.dimensions != b.terms.key.dimensions
  }

  /** After a serial run, resolution is ambiguous exactly when two cards answer the request that
      differ in their dimensions: cards that share one pricing key never collide. */
  lemma ResolveAmbiguousExactly(actions: seq<Action>, f: Filter, w: Window, dimensions: map<Name, Name>)
    requires SerialRun(actions) && w.start < w.end
    requires f.provider.Some? && f.product.Some? && f.meterId.Some? && f.meterVersion.Some?
    ensures Resolve(Run(actions).store, f, w, dimensions) == Err(InvalidCost) <==>
      exists a, b :: TwoAnswers(Run(actions).store, f, w, dimensions, a, b)
  {
    var store := Run(actions).store;
    var matches := Matches(store, f, w, dimensions);
    RunInv(actions);
    MatchesAnswer(store, f, w, dimensions);
    ResolveMeans(store, f, w, dimensions);
    if |matches| > 1 {
      var a :| a in matches;
      TwoMembers(matches, a);
      var b :| b in matches && b != a;
      AnswersDiffer(actions, f, w, dimensions, a, b);
      assert TwoAnswers(store, f, w, dimensions, a, b);
    }
    if a, b :| TwoAnswers(store, f, w, dimensions, a, b) {
      ListedSomewhere(store, a);
      ListedSomewhere(store, b);
      assert a in matches && b in matches;
      if |matches| == 1 { Singleton(matches, a, b); }
    }
  }

  /** When the cards that answer share one pricing key, resolution returns the only one, or
      reports that there is none. */
  lemma ResolveUnique(actions: seq<Action>, f: Filter, w: Window, dimensions: map<Name, Name>, key: PricingKey)
    requires SerialRun(actions) && w.start < w.end
    requires f.provider.Some? && f.product.Some? && f.meterId.Some? && f.meterVersion.Some?
    requires forall c :: Answers(Run(actions).store, f, w, dimensions, c) ==> c.terms.key == key
    ensures match Resolve(Run(actions).store, f, w, dimensions)
      case Ok(c) => forall x :: Answers(Run(actions).store, f, w, dimensions, x) <==> x == c
      case Err(e) => e == MissingRateCard && forall x :: !Answers(Run(actions).store, f, w, dimensions, x)
  {
    ResolveAmbiguousExactly(actions, f, w, dimensions);
    RunInv(actions);
    ResolveAnswers(Run(actions).store, f, w, dimensions);
  }

  /** What resolution returns, in every store: the only card that answers, or the error for
      none, or the error for several. */
  lemma ResolveAnswers(store: Store, f: Filter, w: Window, dimensions: map<Name, Name>)
    requires Histories(store) && w.start < w.end
    ensures match Resolve(store, f, w, dimensions)
      case Ok(c) => forall x :: Answers(store, f, w, dimensions, x) <==> x == c
      case Err(e) =>
        || (e == MissingRateCard && forall x :: !Answers(store, f, w, dimensions, x))
        || (e == InvalidCost && exists a, b :: a != b && Answers(store, f, w, dimensions, a) && Answers(store, f, w, dimensions, b))
  {
    var matches := Matches(store, f, w, dimensions);
    MatchesAnswer(store, f, w, dimensions);
    ResolveMeans(store, f, w, dimensions);
    forall x ensures x in matches <==> Answers(store, f, w, dimensions, x) {
      if Answers(store, f, w, dimensions, x) { ListedSomewhere(store, x); }
    }
    if |matches| > 1 {
      var a :| a in matches;
      TwoMembers(matches, a);
    }
  }

  lemma ResolveMeans(store: Store, f: Filter, w: Window, dimensions: map<Name, Name>)
    ensures var matches := Matches(store, f, w, dimensions);
      match Resolve(store, f, w, dimensions)
      case Ok(c) => matches == {c}
      case Err(e) => (e == MissingRateCard && matches == {}) || (e == InvalidCost && |matches| > 1)
  {
    var matches := Matches(store, f, w, dimensions);
    if c :| c in matches && |matches| == 1 {
      forall b | b in matches ensures b == c { Singleton(matches, c, b); }
    }
  }
}
