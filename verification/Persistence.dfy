/** Writing a calculation: its records first, then the calculation, each a put of its own.

    Without a transaction a writer may stop between any two puts, and any number of writers
    may interleave.  What the store then guarantees, what a rerun does, and what can be left
    behind. */
module Persistence {
  import opened Decimals
  import opened Rows
  import opened Calculations
  import opened RateCards

  datatype Costs = Costs(records: map<CostId, CostRecord>, calculations: map<VersionId, Calculation>)

  const EMPTY := Costs(map[], map[])

  datatype Write = WriteRecord(record: CostRecord) | WriteCalculation(calculation: Calculation)

  predicate Occupied(s: Costs, w: Write) {
    match w
    case WriteRecord(r) => r.id in s.records
    case WriteCalculation(c) => c.id in s.calculations
  }

  predicate Written(s: Costs, w: Write) {
    match w
    case WriteRecord(r) => r.id in s.records && s.records[r.id] == r
    case WriteCalculation(c) => c.id in s.calculations && s.calculations[c.id] == c
  }

  function Insert(s: Costs, w: Write): Costs {
    match w
    case WriteRecord(r) => s.(records := s.records[r.id := r])
    case WriteCalculation(c) => s.(calculations := s.calculations[c.id := c])
  }

  datatype Outcome = Outcome(store: Costs, error: Option<Error>)

  /** _put_record and _put_calculation: a get, then a put if nothing was found, then another
      get if the put lost a race.  Stored content never changes, so this is one put-if-absent
      followed by a comparison. */
  function Apply(s: Costs, w: Write): Outcome {
    if !Occupied(s, w) then Outcome(Insert(s, w), None)
    else if Written(s, w) then Outcome(s, None)
    else Outcome(s, Some(Conflict))
  }

  /** A series of writes that stops at the first conflict. */
  function ApplyAll(s: Costs, ws: seq<Write>): Outcome
    decreases |ws|
  {
    if ws == [] then Outcome(s, None) else
    var first := Apply(s, ws[0]);
    if first.error.Some? then first else ApplyAll(first.store, ws[1..])
  }

  function Writes(c: Calculation, rs: seq<CostRecord>): (ws: seq<Write>)
    ensures |ws| == |rs| + 1
    ensures forall i :: 0 <= i < |rs| ==> ws[i] == WriteRecord(rs[i])
    ensures ws[|rs|] == WriteCalculation(c)
  {
    seq(|rs| + 1, i requires 0 <= i <= |rs| => if i < |rs| then WriteRecord(rs[i]) else WriteCalculation(c))
  }

  predicate Extends(a: Costs, b: Costs) {
    && (forall k <- a.records :: k in b.records && b.records[k] == a.records[k])
    && (forall k <- a.calculations :: k in b.calculations && b.calculations[k] == a.calculations[k])
  }

  lemma ApplyExtends(s: Costs, w: Write)
    ensures Extends(s, Apply(s, w).store)
    ensures Apply(s, w).error == None ==> Written(Apply(s, w).store, w)
  {
  }

  // ---- rerunning after a crash ----

  lemma {:induction false} ApplyAllExtends(s: Costs, ws: seq<Write>)
    ensures Extends(s, ApplyAll(s, ws).store)
    ensures ApplyAll(s, ws).error == None ==> forall w <- ws :: Written(ApplyAll(s, ws).store, w)
    decreases |ws|
  {
    if ws != [] {
      var first := Apply(s, ws[0]);
      ApplyExtends(s, ws[0]);
      if first.error == None {
        ApplyAllExtends(first.store, ws[1..]);
        forall w | w in ws && ApplyAll(s, ws).error == None ensures Written(ApplyAll(s, ws).store, w) {
          if w != ws[0] { assert w in ws[1..]; }
        }
      }
    }
  }

  lemma {:induction false} WrittenIsSkipped(s: Costs, done: seq<Write>, rest: seq<Write>)
    requires forall w <- done :: Written(s, w)
    ensures ApplyAll(s, done + rest) == ApplyAll(s, rest)
  {
    if done == [] {
      assert done + rest == rest;
    } else {
      assert (done + rest)[1..] == done[1..] + rest;
      assert done[0] in done;
      WrittenIsSkipped(s, done[1..], rest);
    }
  }

  /** Crash safety of one caller: stop after any number of puts and rerun the whole call.  The
      store and the outcome are those of a call that was never interrupted, also when the
      call ends in a conflict. */
  lemma {:induction false} RerunAfterCrash(s: Costs, ws: seq<Write>, k: nat)
    requires k <= |ws|
    ensures ApplyAll(ApplyAll(s, ws[..k]).store, ws) == ApplyAll(s, ws)
    decreases k
  {
    if k > 0 {
      var first := Apply(s, ws[0]);
      assert ws[..k][0] == ws[0] && ws[..k][1..] == ws[1..][..k - 1];
      if first.error == None {
        RerunAfterCrash(first.store, ws[1..], k - 1);
        var stopped := ApplyAll(first.store, ws[1..][..k - 1]);
        ApplyAllExtends(first.store, ws[1..][..k - 1]);
        ApplyExtends(s, ws[0]);
        assert Written(stopped.store, ws[0]);
        assert Apply(stopped.store, ws[0]) == Outcome(stopped.store, None);
      }
    }
  }

  /** Two writes for the same identity. */
  predicate SameTarget(a: Write, b: Write) {
    match (a, b)
    case (WriteRecord(r), WriteRecord(q)) => r.id == q.id
    case (WriteCalculation(c), WriteCalculation(d)) => c.id == d.id
    case _ => false
  }

  ghost predicate DistinctTargets(ws: seq<Write>) {
    forall i, j :: 0 <= i < j < |ws| ==> !SameTarget(ws[i], ws[j])
  }

  predicate Free(s: Costs, w: Write) { !Occupied(s, w) || Written(s, w) }

  /** A call succeeds exactly when none of its identities is stored with other content.  So a
      crash that leaves records behind makes every later call fail that computes other
      records for the same identities. */
  lemma {:induction false} SucceedsExactly(s: Costs, ws: seq<Write>)
    requires DistinctTargets(ws)
    ensures ApplyAll(s, ws).error == None <==> forall w <- ws :: Free(s, w)
    decreases |ws|
  {
    if ws != [] {
      var first := Apply(s, ws[0]);
      assert ws[0] in ws;
      if first.error == None {
        SucceedsExactly(first.store, ws[1..]);
        forall w | w in ws[1..] ensures Free(first.store, w) <==> Free(s, w) {
          var j :| 0 <= j < |ws[1..]| && ws[1..][j] == w;
          assert !SameTarget(ws[0], ws[j + 1]);
        }
        forall w | w in ws ensures w == ws[0] || w in ws[1..] { }
        forall w | w in ws[1..] ensures w in ws { }
      }
    }
  }

  // ---- what a stopped writer leaves behind ----

  ghost predicate Keyed(s: Costs) {
    && (forall k <- s.records :: s.records[k].id == k)
    && (forall k <- s.calculations :: s.calculations[k].id == k)
  }

  lemma PositionOf(rs: seq<CostRecord>, id: CostId) returns (i: nat)
    requires id in multiset(RecordIds(rs))
    ensures i < |rs| && rs[i].id == id
  {
    i :| i < |rs| && RecordIds(rs)[i] == id;
  }

  /** What records_for_calculation returns. */
  function RecordsIn(s: Costs, v: VersionId): set<CostRecord> {
    set k <- s.records | s.records[k].calculation == v :: s.records[k]
  }

  /** records_for_calculation returns exactly the record ids of the calculation. */
  ghost predicate Exact(s: Costs, c: Calculation) {
    forall id :: id in c.recordIds <==> id in s.records && s.records[id].calculation == c.id
  }

  /** Before a call: every stored record of the version is one that the call writes. */
  ghost predicate NoOrphans(s: Costs, c: Calculation) {
    forall k <- s.records :: s.records[k].calculation == c.id ==> k in c.recordIds
  }

  lemma {:induction false} RecordsAfter(s: Costs, ws: seq<Write>, k: CostId)
    requires Keyed(s) && k in ApplyAll(s, ws).store.records
    ensures k in s.records || exists w :: w in ws && w.WriteRecord? && w.record.id == k
    decreases |ws|
  {
    if ws != [] && Apply(s, ws[0]).error == None {
      if k !in Apply(s, ws[0]).store.records {
        RecordsAfter(Apply(s, ws[0]).store, ws[1..], k);
        var w :| w in ws[1..] && w.WriteRecord? && w.record.id == k;
        assert w in ws;
      } else if k !in s.records {
        assert ws[0] in ws;
      }
    }
  }

  /** After a successful call the records found for the calculation are exactly its own if and
      only if no other record of that version was stored before the call. */
  lemma ExactUnlessOrphans(s: Costs, c: Calculation, rs: seq<CostRecord>)
    requires Keyed(s) && PersistGuard(c, rs) == None && ApplyAll(s, Writes(c, rs)).error == None
    ensures Exact(ApplyAll(s, Writes(c, rs)).store, c) <==> NoOrphans(s, c)
  {
    var ws := Writes(c, rs);
    var t := ApplyAll(s, ws).store;
    ApplyAllExtends(s, ws);
    forall id | id in c.recordIds ensures id in t.records && t.records[id].calculation == c.id {
      var i := PositionOf(rs, id);
      assert ws[i] in ws && rs[i] in rs;
    }
    if NoOrphans(s, c) {
      forall id | id in t.records && t.records[id].calculation == c.id ensures id in c.recordIds {
        RecordsAfter(s, ws, id);
        if id !in s.records {
          var w :| w in ws && w.WriteRecord? && w.record.id == id;
          var i :| 0 <= i < |rs| && rs[i].id == id;
          assert RecordIds(rs)[i] == id;
        }
      }
    }
  }

  lemma WritesAreDistinct(c: Calculation, rs: seq<CostRecord>)
    requires DistinctBy(IdOfRecord, rs)
    ensures DistinctTargets(Writes(c, rs))
  {
    var ws := Writes(c, rs);
    forall i, j | 0 <= i < j < |ws| ensures !SameTarget(ws[i], ws[j]) {
      if j < |rs| { assert IdOfRecord(rs[i]) != IdOfRecord(rs[j]); }
    }
  }

  /** One record of another write stays with the calculation that is stored after it. */
  lemma OrphanStays(r: CostRecord, c: Calculation, rs: seq<CostRecord>)
    requires PersistGuard(c, rs) == None && DistinctBy(IdOfRecord, rs)
    requires r.calculation == c.id && forall q <- rs :: q.id != r.id
    ensures var second := ApplyAll(Insert(EMPTY, WriteRecord(r)), Writes(c, rs));
      && second.error == None && !Exact(second.store, c)
      && r in RecordsIn(second.store, c.id) && r.id !in c.recordIds
  {
    var stopped := Insert(EMPTY, WriteRecord(r));
    var ws := Writes(c, rs);
    WritesAreDistinct(c, rs);
    forall w | w in ws ensures Free(stopped, w) {
      var i :| 0 <= i < |ws| && ws[i] == w;
      if i < |rs| { assert rs[i] in rs; }
    }
    SucceedsExactly(stopped, ws);
    ApplyAllExtends(stopped, ws);
    assert r.id in stopped.records;
    forall i | 0 <= i < |rs| ensures RecordIds(rs)[i] != r.id { assert rs[i] in rs; }
    assert r.id !in multiset(RecordIds(rs));
  }

  /** A calculation stops after its first record; the same series is then calculated with
      another weighting of the same dimensions.  The second calculation succeeds, but the
      records found for it include one that is not its own, so it can no longer be replayed. */
  lemma OrphanAfterCrash(a: Job, b: Job)
    requires Priced(a) && Priced(b) && a.version == b.version && a.spec != b.spec
    ensures RecordsOf(a).Ok? && RecordsOf(b).Ok? && RecordsOf(a).value != []
    ensures
      var ra, rb := RecordsOf(a).value, RecordsOf(b).value;
      var ca, cb := CalculationFor(a, ra, None), CalculationFor(b, rb, None);
      var stopped := ApplyAll(EMPTY, Writes(ca, ra)[..1]);
      var second := ApplyAll(stopped.store, Writes(cb, rb));
      && stopped.error == None && second.error == None && !Exact(second.store, cb)
      && ra[0] in RecordsIn(second.store, cb.id) && ra[0].id !in cb.recordIds
  {
    RecordsConserve(a);
    RecordsConserve(b);
    NoGuardFires(b, None);
    var ra, rb := RecordsOf(a).value, RecordsOf(b).value;
    var ca, cb := CalculationFor(a, ra, None), CalculationFor(b, rb, None);
    OneWrite(Writes(ca, ra)[..1]);
    assert Stands(a, ra[0]) && cb.id == b.version;
    forall q | q in rb ensures q.id != ra[0].id {
      var i :| 0 <= i < |rb| && rb[i] == q;
    }
    OrphanStays(ra[0], cb, rb);
  }

  lemma OneWrite(ws: seq<Write>)
    requires |ws| == 1
    ensures ApplyAll(EMPTY, ws) == Outcome(Insert(EMPTY, ws[0]), None)
  {
    assert ApplyAll(EMPTY, ws) == ApplyAll(Apply(EMPTY, ws[0]).store, ws[1..]);
  }
}
