/** Any number of writers without a transaction, each of whose puts is a step of its own, and
    each of which may stop at any point. */
module Writers {
  import opened Decimals
  import opened Calculations
  import opened Persistence

  type Writer = nat

  datatype Phase =
    | Idle
    | Writing(calculation: Calculation, records: seq<CostRecord>, done: nat)
    | Finished(error: Option<Error>)

  datatype System = System(store: Costs, phases: map<Writer, Phase>) {
    function PhaseOf(w: Writer): Phase { if w in phases then phases[w] else Idle }
    function With(w: Writer, p: Phase): System { this.(phases := phases[w := p]) }
  }

  datatype Action =
    | Begin(writer: Writer, calculation: Calculation, records: seq<CostRecord>)
    | PutNext(writer: Writer)
    | Crash(writer: Writer)

  /** One step of one writer; PutNext is a single put of persist_calculation. */
  function Step(s: System, a: Action): System {
    var p := s.PhaseOf(a.writer);
    match a
    case Begin(w, c, rs) =>
      if p.Writing? then s
      else if PersistGuard(c, rs).Some? then s.With(w, Finished(PersistGuard(c, rs)))
      else s.With(w, Writing(c, rs, 0))
    case PutNext(w) =>
      if !p.Writing? || p.done > |p.records| then s else
      var put := Apply(s.store, Writes(p.calculation, p.records)[p.done]);
      var next := if put.error.Some? then Finished(put.error)
                  else if p.done == |p.records| then Finished(None)
                  else p.(done := p.done + 1);
      System(put.store, s.phases).With(w, next)
    case Crash(w) => s.With(w, Idle)
  }

  function Run(actions: seq<Action>): System {
    if actions == [] then System(EMPTY, map[])
    else Step(Run(actions[..|actions| - 1]), actions[|actions| - 1])
  }

  /** Every record of `rs` is stored. */
  ghost predicate AllWritten(s: Costs, rs: seq<CostRecord>) {
    forall r <- rs :: Written(s, WriteRecord(r))
  }

  /** Stored with a full set of records that passed the guards. */
  ghost predicate Complete(s: Costs, c: Calculation) {
    exists rs :: PersistGuard(c, rs) == None && AllWritten(s, rs)
  }

  ghost predicate PhaseInv(s: Costs, p: Phase) {
    p.Writing? ==> p.done <= |p.records| && PersistGuard(p.calculation, p.records) == None
                     && AllWritten(s, p.records[..p.done])
  }

  ghost predicate Inv(s: System) {
    && Keyed(s.store)
    && (forall k <- s.store.calculations :: Complete(s.store, s.store.calculations[k]))
    && (forall w <- s.phases :: PhaseInv(s.store, s.phases[w]))
  }

  lemma CompleteExtends(a: Costs, b: Costs, c: Calculation)
    requires Complete(a, c) && Extends(a, b)
    ensures Complete(b, c)
  {
    var rs :| PersistGuard(c, rs) == None && AllWritten(a, rs);
    assert AllWritten(b, rs);
  }

  /** One put keeps stored calculations complete: the calculation itself is written last. */
  lemma PutKeepsComplete(s: Costs, c: Calculation, rs: seq<CostRecord>, i: nat)
    requires Keyed(s) && forall k <- s.calculations :: Complete(s, s.calculations[k])
    requires i <= |rs| && PersistGuard(c, rs) == None && AllWritten(s, rs[..i])
    ensures var t := Apply(s, Writes(c, rs)[i]).store;
      Keyed(t) && forall k <- t.calculations :: Complete(t, t.calculations[k])
  {
    var t := Apply(s, Writes(c, rs)[i]).store;
    ApplyExtends(s, Writes(c, rs)[i]);
    forall k | k in t.calculations ensures Complete(t, t.calculations[k]) {
      if k in s.calculations {
        CompleteExtends(s, t, s.calculations[k]);
      } else {
        assert rs[..i] == rs;
        assert AllWritten(t, rs);
      }
    }
  }

  lemma PutNextKeepsInv(s: System, w: Writer)
    requires Inv(s) && s.PhaseOf(w).Writing?
    ensures Inv(Step(s, PutNext(w)))
  {
    var p, t := s.PhaseOf(w), Step(s, PutNext(w));
    assert PhaseInv(s.store, p);
    PutKeepsComplete(s.store, p.calculation, p.records, p.done);
    ApplyExtends(s.store, Writes(p.calculation, p.records)[p.done]);
    if t.PhaseOf(w).Writing? {
      assert p.records[..p.done + 1] == p.records[..p.done] + [p.records[p.done]];
    }
    forall e | e in t.phases ensures PhaseInv(t.store, t.phases[e]) {
      if e != w { PhaseExtends(s.store, t.store, s.phases[e]); }
      else { PhaseExtends(s.store, t.store, p); }
    }
  }

  lemma PhaseExtends(a: Costs, b: Costs, p: Phase)
    requires PhaseInv(a, p) && Extends(a, b)
    ensures PhaseInv(b, p)
  {
  }

  lemma StepKeepsInv(s: System, a: Action)
    requires Inv(s)
    ensures Inv(Step(s, a))
  {
    if a.PutNext? && s.PhaseOf(a.writer).Writing? { PutNextKeepsInv(s, a.writer); }
  }

  lemma {:induction false} RunInv(actions: seq<Action>)
    ensures Inv(Run(actions))
  {
    if actions != [] {
      RunInv(actions[..|actions| - 1]);
      StepKeepsInv(Run(actions[..|actions| - 1]), actions[|actions| - 1]);
    }
  }

  /** After every run, whatever was interrupted: a stored calculation has every one of its
      records, each refers to it, and any list of exactly those records adds up to its
      final amount. */
  lemma StoredCalculationsAreComplete(actions: seq<Action>, v: VersionId, rs: seq<CostRecord>)
    requires v in Run(actions).store.calculations
    ensures var s := Run(actions).store; var c := s.calculations[v];
      && c.id == v
      && (forall id <- c.recordIds :: id in s.records && s.records[id].id == id && s.records[id].calculation == v)
      && (multiset(RecordIds(rs)) == c.recordIds && AllWritten(s, rs) ==> Sum(Finals(rs)) == c.final)
  {
    RunInv(actions);
    var s := Run(actions).store;
    var c := s.calculations[v];
    var own :| PersistGuard(c, own) == None && AllWritten(s, own);
    forall id | id in c.recordIds ensures id in s.records && s.records[id].calculation == v {
      var i := PositionOf(own, id);
      assert own[i] in own;
    }
    if multiset(RecordIds(rs)) == c.recordIds && AllWritten(s, rs) {
      SameFinals(s, rs, own);
    }
  }

  /** Stored records with the same ids have the same total. */
  lemma {:induction false} SameFinals(s: Costs, rs: seq<CostRecord>, own: seq<CostRecord>)
    requires multiset(RecordIds(rs)) == multiset(RecordIds(own)) && AllWritten(s, rs) && AllWritten(s, own)
    ensures Sum(Finals(rs)) == Sum(Finals(own))
    decreases |rs|
  {
    if rs == [] {
      assert |RecordIds(own)| == |multiset(RecordIds(own))| == 0;
    } else {
      assert RecordIds(rs)[0] in multiset(RecordIds(rs));
      var i := PositionOf(own, rs[0].id);
      RemovePair(s, rs, own, i);
      SameFinals(s, rs[..0] + rs[1..], own[..i] + own[i + 1..]);
    }
  }

  lemma RemovePair(s: Costs, rs: seq<CostRecord>, own: seq<CostRecord>, i: nat)
    requires multiset(RecordIds(rs)) == multiset(RecordIds(own)) && AllWritten(s, rs) && AllWritten(s, own)
    requires rs != [] && i < |own| && own[i].id == rs[0].id
    ensures var a, b := rs[..0] + rs[1..], own[..i] + own[i + 1..];
      && multiset(RecordIds(a)) == multiset(RecordIds(b)) && AllWritten(s, a) && AllWritten(s, b)
      && Sum(Finals(rs)) - Sum(Finals(a)) == Sum(Finals(own)) - Sum(Finals(b))
  {
    Without(rs, 0);
    Without(own, i);
    assert rs[0] in rs && own[i] in own;
  }

  /** Taking one record out takes out its id and its amount. */
  lemma Without(rs: seq<CostRecord>, i: nat)
    requires i < |rs|
    ensures var rest := rs[..i] + rs[i + 1..];
      && multiset(RecordIds(rest)) == multiset(RecordIds(rs)) - multiset{rs[i].id}
      && Sum(Finals(rs)) == rs[i].final + Sum(Finals(rest))
      && forall r <- rest :: r in rs
  {
    var rest := rs[..i] + rs[i + 1..];
    assert RecordIds(rs) == RecordIds(rs)[..i] + [rs[i].id] + RecordIds(rs)[i + 1..];
    assert RecordIds(rest) == RecordIds(rs)[..i] + RecordIds(rs)[i + 1..];
    SumRemove(Finals(rs), i);
    assert Finals(rest) == Finals(rs)[..i] + Finals(rs)[i + 1..];
  }

  lemma {:induction false} SumRemove(s: seq<int>, i: nat)
    requires i < |s|
    ensures Sum(s) == s[i] + Sum(s[..i] + s[i + 1..])
  {
    if i == 0 {
      assert s[..0] + s[1..] == s[1..];
    } else {
      SumRemove(s[1..], i - 1);
      assert (s[..i] + s[i + 1..])[1..] == s[1..][..i - 1] + s[1..][i..];
    }
  }
}
