/** The rate-card lifecycle as a protocol of arbitrarily many clients.

    A client's reads and its put are separate steps, and any number of other clients may
    act in between.  A read may return any snapshot that is stored, or report that nothing
    was found, even when newer snapshots exist: this covers scans that page while the
    store grows and reads that lag behind. */
module Lifecycle {
  import opened Decimals
  import opened RateCards

  type Client = nat

  datatype Operation =
    | Create(card: RateCard)
    | Replace(card: RateCard, expected: nat)
    | Move(id: Name, version: nat, expected: nat, to: PublicationState, at: int)
    | Publish(id: Name, version: nat, expected: nat, at: int)

  datatype Phase =
    | Idle
    | Putting(card: RateCard, staleOnConflict: bool)
    | Publishing(current: RateCard, at: int)
    | Checked(current: RateCard, at: int)
    | Finished(result: Result<RateCard>)

  datatype System = System(store: Store, clients: map<Client, Phase>) {
    function PhaseOf(c: Client): Phase { if c in clients then clients[c] else Idle }
    function With(c: Client, p: Phase): System { this.(clients := clients[c := p]) }
  }

  const INITIAL := System(map[], map[])

  datatype Action =
    | Read(client: Client, op: Operation, seen: Option<RateCard>)
    | CheckOverlap(client: Client, listed: set<RateCard>)
    | Reread(client: Client, seen: Option<RateCard>)
    | Put(client: Client)
    | Crash(client: Client)

  /** A read of one card: nothing, or some snapshot of it that the store holds. */
  predicate Observed(store: Store, id: Name, version: nat, seen: Option<RateCard>) {
    seen.Some? ==>
      && IdOf(seen.value) in store && store[IdOf(seen.value)] == seen.value
      && seen.value.id == id && seen.value.version == version
  }

  /** What the public interface accepts and what its first read can return. */
  predicate CanRead(store: Store, op: Operation, seen: Option<RateCard>) {
    match op
    case Create(card) =>
      ValidRateCard(card) && Observed(store, card.id, card.version, seen)
      && (seen.Some? ==> seen.value.revision == 1)
    case Replace(card, _) => ValidRateCard(card) && Observed(store, card.id, card.version, seen)
    case Move(id, version, _, to, _) =>
      (to == Validated || to == Retired) && Observed(store, id, version, seen)
    case Publish(id, version, _, _) => Observed(store, id, version, seen)
  }

  function PhaseAfter(d: Decision): Phase {
    match d
    case Append(card, stale) => Putting(card, stale)
    case Return(result) => Finished(result)
  }

  function AfterRead(op: Operation, seen: Option<RateCard>): Phase {
    match op
    case Create(card) => PhaseAfter(DecideCreate(seen, card))
    case Replace(card, expected) => PhaseAfter(DecideReplace(seen, card, expected))
    case Move(_, _, expected, to, at) => PhaseAfter(DecideTransition(seen, expected, to, at))
    case Publish(_, _, expected, at) =>
      match DecidePublish(seen, expected)
      case Ok(current) => Publishing(current, at)
      case Err(e) => Finished(Err(e))
  }

  /** One step of one client; an action that is not possible changes nothing. */
  function Step(s: System, a: Action): System {
    var p := s.PhaseOf(a.client);
    match a
    case Read(c, op, seen) =>
      if (p.Idle? || p.Finished?) && CanRead(s.store, op, seen) then s.With(c, AfterRead(op, seen))
      else s
    case CheckOverlap(c, listed) =>
      if !p.Publishing? then s
      else if exists other <- listed :: Collides(p.current, other) then
        s.With(c, Finished(Err(OverlappingRateCard)))
      else s.With(c, Checked(p.current, p.at))
    case Reread(c, seen) =>
      if p.Checked? && Observed(s.store, p.current.id, p.current.version, seen) then
        s.With(c, PhaseAfter(DecideTransition(seen, p.current.revision, Published, p.at)))
      else s
    case Put(c) =>
      if p.Putting? then
        System(PutIfAbsent(s.store, p.card), s.clients)
          .With(c, Finished(AppendResult(s.store, p.card, p.staleOnConflict)))
      else s
    case Crash(c) => s.With(c, Idle)
  }

  /** Every interleaving of every number of clients is a sequence of actions. */
  function Run(actions: seq<Action>): System {
    if actions == [] then INITIAL
    else Step(Run(actions[..|actions| - 1]), actions[|actions| - 1])
  }

  // ---- the invariant ----

  /** `next` is `prev` one lifecycle step later, with nothing else changed. */
  ghost predicate Advances(prev: RateCard, next: RateCard) {
    && Allowed(prev.state, next.state)
    && next.terms == prev.terms && next.createdAt == prev.createdAt
    && (next.state != Published ==> next.publishedAt == prev.publishedAt)
  }

  /** `next` may be appended after `prev`. */
  ghost predicate Follows(prev: RateCard, next: RateCard) {
    && SameCard(prev, next) && next.revision == prev.revision + 1
    && ((prev.state == Draft && next.state == Draft) || Advances(prev, next))
  }

  function Previous(k: SnapshotId): SnapshotId
    requires k.revision >= 1
  {
    k.(revision := k.revision - 1)
  }

  /** `card` opens a history, or continues one that the store holds. */
  ghost predicate Continues(store: Store, card: RateCard) {
    && ValidRateCard(card)
    && if card.revision == 1 then card.state == Draft
       else Previous(IdOf(card)) in store && Follows(store[Previous(IdOf(card))], card)
  }

  ghost predicate Sound(store: Store, k: SnapshotId)
    requires k in store
  {
    IdOf(store[k]) == k && Continues(store, store[k])
  }

  /** The trigger keeps the solver from walking a history back on its own. */
  ghost predicate Histories(store: Store) {
    forall k {:trigger Sound(store, k)} | k in store :: Sound(store, k)
  }

  ghost predicate Holds(store: Store, card: RateCard) {
    IdOf(card) in store && store[IdOf(card)] == card
  }

  ghost predicate PhaseInv(store: Store, p: Phase) {
    match p
    case Idle => true
    case Putting(card, _) => Continues(store, card)
    case Publishing(current, _) => Holds(store, current) && current.state == Validated
    case Checked(current, _) => Holds(store, current) && current.state == Validated
    case Finished(result) => result.Ok? ==> Holds(store, result.value)
  }

  ghost predicate Inv(s: System) {
    Histories(s.store) && forall c <- s.clients :: PhaseInv(s.store, s.clients[c])
  }

  ghost predicate Grows(a: Store, b: Store) {
    forall k <- a :: k in b && b[k] == a[k]
  }

  lemma PhaseInvGrows(a: Store, b: Store, p: Phase)
    requires PhaseInv(a, p) && Grows(a, b)
    ensures PhaseInv(b, p)
  {
  }

  lemma TransitionFollows(store: Store, prior: RateCard, to: PublicationState, at: int)
    requires Histories(store) && Holds(store, prior) && Transition(prior, to, at).Ok?
    ensures Continues(store, Transition(prior, to, at).value)
  {
    var next := Transition(prior, to, at).value;
    assert Sound(store, IdOf(prior));
    assert Previous(IdOf(next)) == IdOf(prior);
  }

  lemma ReadKeepsInv(s: System, op: Operation, seen: Option<RateCard>)
    requires Inv(s) && CanRead(s.store, op, seen)
    ensures PhaseInv(s.store, AfterRead(op, seen))
  {
    match op
    case Create(card) =>
    case Replace(card, expected) =>
      if DecideReplace(seen, card, expected).Append? {
        assert Previous(IdOf(card)) == IdOf(seen.value);
        assert Sound(s.store, IdOf(seen.value));
      }
    case Move(_, _, expected, to, at) =>
      if DecideTransition(seen, expected, to, at).Append? {
        TransitionFollows(s.store, seen.value, to, at);
      }
    case Publish(_, _, expected, _) =>
  }

  lemma PutKeepsHistories(store: Store, card: RateCard)
    requires Histories(store) && Continues(store, card)
    ensures Histories(PutIfAbsent(store, card)) && Grows(store, PutIfAbsent(store, card))
  {
    var after := PutIfAbsent(store, card);
    forall k | k in after ensures Sound(after, k) {
      if k in store { assert Sound(store, k); }
    }
  }

  lemma StepKeepsInv(s: System, a: Action)
    requires Inv(s)
    ensures Inv(Step(s, a)) && Grows(s.store, Step(s, a).store)
  {
    var p, t := s.PhaseOf(a.client), Step(s, a);
    assert PhaseInv(s.store, p);
    match a {
      case Read(c, op, seen) => if CanRead(s.store, op, seen) { ReadKeepsInv(s, op, seen); }
      case CheckOverlap(c, listed) =>
      case Reread(c, seen) =>
        if p.Checked? && seen.Some? && Observed(s.store, p.current.id, p.current.version, seen)
           && DecideTransition(seen, p.current.revision, Published, p.at).Append? {
          TransitionFollows(s.store, seen.value, Published, p.at);
        }
      case Put(c) =>
        if p.Putting? { PutKeepsHistories(s.store, p.card); }
      case Crash(c) =>
    }
    forall c <- t.clients ensures PhaseInv(t.store, t.clients[c]) {
      if c != a.client { PhaseInvGrows(s.store, t.store, s.clients[c]); }
    }
  }

  /** The invariant holds after every run. */
  lemma {:induction false} RunInv(actions: seq<Action>)
    ensures Inv(Run(actions))
  {
    if actions != [] {
      RunInv(actions[..|actions| - 1]);
      StepKeepsInv(Run(actions[..|actions| - 1]), actions[|actions| - 1]);
    }
  }

  /** No stored snapshot ever changes or disappears. */
  lemma {:induction false} AppendOnly(actions: seq<Action>, k: nat)
    requires k <= |actions|
    ensures Grows(Run(actions[..k]).store, Run(actions).store)
  {
    if k == |actions| {
      assert actions[..k] == actions;
    } else {
      var before := actions[..|actions| - 1];
      AppendOnly(before, k);
      assert before[..k] == actions[..k];
      RunInv(before);
      StepKeepsInv(Run(before), actions[|actions| - 1]);
    }
  }

  // ---- the shape of a history ----

  /** Histories have no gaps: below a stored revision every revision is stored. */
  lemma {:induction false} GapFree(store: Store, k: SnapshotId, r: nat)
    requires Histories(store) && k in store && 1 <= r <= k.revision
    ensures k.(revision := r) in store
    decreases k.revision - r
  {
    assert Sound(store, k);
    if r < k.revision {
      GapFree(store, k, r + 1);
      var next := k.(revision := r + 1);
      assert Sound(store, next);
      assert Previous(next) == k.(revision := r);
    }
  }

  function At(store: Store, k: SnapshotId, r: nat): RateCard
    requires k.(revision := r) in store
  {
    store[k.(revision := r)]
  }

  lemma Adjacent(store: Store, k: SnapshotId, r: nat)
    requires Histories(store) && k in store && 1 <= r < k.revision
    ensures k.(revision := r) in store && k.(revision := r + 1) in store
    ensures Follows(At(store, k, r), At(store, k, r + 1))
  {
    GapFree(store, k, r);
    GapFree(store, k, r + 1);
    var next := k.(revision := r + 1);
    assert Sound(store, next);
    assert Previous(next) == k.(revision := r);
  }

  /** State of revision `r` in a history whose first `d` revisions are drafts. */
  function StateAt(d: nat, r: nat): PublicationState {
    if r <= d then Draft else if r == d + 1 then Validated
    else if r == d + 2 then Published else Retired
  }

  /** The history of a card up to a stored revision: revisions 1..n without gaps; `d` drafts
      followed by validated, published and retired in that order, at most one of each; and
      the terms never change from the last draft on. */
  ghost predicate HasShape(store: Store, k: SnapshotId, d: nat) {
    && 1 <= d && k.revision <= d + 3
    && (forall r :: 1 <= r <= k.revision ==> k.(revision := r) in store)
    && (forall r :: 1 <= r <= k.revision ==>
          IdOf(At(store, k, r)) == k.(revision := r) && At(store, k, r).state == StateAt(d, r))
    && (forall r :: d <= r <= k.revision ==> At(store, k, r).terms == At(store, k, d).terms)
    && (d + 3 <= k.revision ==> At(store, k, d + 3).publishedAt == At(store, k, d + 2).publishedAt)
  }

  lemma {:induction false} HistoryShape(store: Store, k: SnapshotId) returns (d: nat)
    requires Histories(store) && k in store
    ensures HasShape(store, k, d)
    ensures d <= k.revision
    decreases k.revision
  {
    assert Sound(store, k);
    if k.revision == 1 {
      d := 1;
    } else {
      var prev := Previous(k);
      assert prev in store;
      d := HistoryShape(store, prev);
      Adjacent(store, k, k.revision - 1);
      assert prev.(revision := k.revision - 1) == prev;
      forall r | 1 <= r <= prev.revision ensures k.(revision := r) == prev.(revision := r) { }
      if At(store, k, k.revision).state == Draft {
        d := k.revision;
      }
    }
  }

  /** Over every run: each history has the lifecycle shape. */
  lemma EveryHistoryHasShape(actions: seq<Action>, k: SnapshotId) returns (d: nat)
    requires k in Run(actions).store
    ensures HasShape(Run(actions).store, k, d)
  {
    RunInv(actions);
    d := HistoryShape(Run(actions).store, k);
  }

  /** At most one content wins a revision: clients that were told of success for the same
      snapshot, at whatever times, were told of the same content. */
  lemma OneWinnerPerRevision(actions: seq<Action>, i: nat, j: nat, c: Client, e: Client)
    requires i <= j <= |actions|
    requires Run(actions[..i]).PhaseOf(c).Finished? && Run(actions[..j]).PhaseOf(e).Finished?
    requires Run(actions[..i]).PhaseOf(c).result.Ok? && Run(actions[..j]).PhaseOf(e).result.Ok?
    ensures var a, b := Run(actions[..i]).PhaseOf(c).result.value, Run(actions[..j]).PhaseOf(e).result.value;
      IdOf(a) == IdOf(b) ==> a == b
  {
    RunInv(actions[..i]);
    RunInv(actions[..j]);
    AppendOnly(actions[..j], i);
    assert actions[..j][..i] == actions[..i];
  }
}
