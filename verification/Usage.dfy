/** Usage input: the closed set of aggregates a calculation prices, and how it is fetched. */
module Usage {
  import opened Decimals
  import opened Sorting
  import opened Rows
  import opened RateCards

  /** `content` stands for what only the aggregate's own fingerprint covers. */
  datatype Aggregate = Aggregate(id: Name, revision: nat, scope: Name, window: Window,
                                 meterId: Name, meterVersion: nat, dimensions: map<Name, Name>,
                                 total: int, watermark: int, content: Name)

  datatype UsageInput = UsageInput(scope: Name, window: Window, meterId: Name, meterVersion: nat,
                                   unit: Name, aggregates: seq<Aggregate>)

  function AggregateId(a: Aggregate): Name { a.id }
  function AggregateRevision(a: Aggregate): nat { a.revision }

  /** The order of version ids. */
  predicate ByVersion(a: Aggregate, b: Aggregate) {
    a.id < b.id || (a.id == b.id && a.revision <= b.revision)
  }

  predicate UniqueAggregates(s: seq<Aggregate>) {
    forall i, j :: 0 <= i < j < |s| ==> s[i].id != s[j].id
  }

  /** The checks on one aggregate, in the order the constructor makes them. */
  function CheckAggregate(u: UsageInput, a: Aggregate): Option<Error> {
    if a.scope != u.scope || a.meterId != u.meterId || a.meterVersion != u.meterVersion then Some(InvalidCost)
    else if a.window.start < u.window.start || a.window.end > u.window.end then Some(InvalidCost)
    else if a.watermark < u.window.end then Some(UnclosedUsage)
    else None
  }

  function FirstError(u: UsageInput, s: seq<Aggregate>): Option<Error> {
    if s == [] then None
    else if CheckAggregate(u, s[0]).Some? then CheckAggregate(u, s[0])
    else FirstError(u, s[1..])
  }

  /** The UsageInputV1 constructor. */
  function MakeUsage(u: UsageInput): Result<UsageInput> {
    if u.aggregates == [] then Err(UnclosedUsage)
    else
      var selected := Sort(ByVersion, u.aggregates);
      if !UniqueAggregates(selected) then Err(UnclosedUsage)
      else match FirstError(u, selected)
        case Some(e) => Err(e)
        case None => Ok(u.(aggregates := selected))
  }

  function Totals(s: seq<Aggregate>): (t: seq<int>)
    ensures |t| == |s|
  {
    seq(|s|, i requires 0 <= i < |s| => s[i].total)
  }

  function Quantity(u: UsageInput): Result<int> { Fit(Sum(Totals(u.aggregates))) }

  /** What a constructed usage input guarantees. */
  ghost predicate Closed(u: UsageInput) {
    && u.aggregates != [] && Sorted(ByVersion, u.aggregates) && UniqueAggregates(u.aggregates)
    && forall a <- u.aggregates ::
         && a.scope == u.scope && a.meterId == u.meterId && a.meterVersion == u.meterVersion
         && u.window.start <= a.window.start && a.window.end <= u.window.end <= a.watermark
  }

  lemma ByVersionIsOrder()
    ensures TotalPreorder(ByVersion)
  {
  }

  lemma {:induction false} NoError(u: UsageInput, s: seq<Aggregate>)
    ensures FirstError(u, s) == None <==> forall a <- s :: CheckAggregate(u, a) == None
    ensures FirstError(u, s).Some? ==> exists a :: a in s && FirstError(u, s) == CheckAggregate(u, a)
  {
    if s != [] {
      NoError(u, s[1..]);
      assert s[0] in s && forall a <- s[1..] :: a in s;
      if CheckAggregate(u, s[0]) == None {
        forall a | a in s ensures a == s[0] || a in s[1..] { }
        if FirstError(u, s[1..]).Some? {
          var a :| a in s[1..] && FirstError(u, s[1..]) == CheckAggregate(u, a);
          assert a in s;
        }
      }
    }
  }

  /** `v` is `u` with its aggregates in another order. */
  ghost predicate Reorders(u: UsageInput, v: UsageInput) {
    v == u.(aggregates := v.aggregates) && multiset(v.aggregates) == multiset(u.aggregates)
  }

  lemma UniquePermuted(s: seq<Aggregate>, t: seq<Aggregate>)
    requires multiset(s) == multiset(t) && UniqueAggregates(s)
    ensures UniqueAggregates(t)
  {
    assert DistinctBy(AggregateId, s);
    PermutedDistinct(AggregateId, s, t);
    forall i, j | 0 <= i < j < |t| ensures t[i].id != t[j].id {
      assert AggregateId(t[i]) != AggregateId(t[j]);
    }
  }

  lemma OneRank(t: seq<Aggregate>)
    requires UniqueAggregates(t)
    ensures forall x, y :: x in t && y in t && ByVersion(x, y) && ByVersion(y, x) ==> x == y
  {
    forall x, y | x in t && y in t && ByVersion(x, y) && ByVersion(y, x) ensures x == y {
      var i :| 0 <= i < |t| && t[i] == x;
      var j :| 0 <= j < |t| && t[j] == y;
    }
  }

  lemma SortAgrees(s: seq<Aggregate>, t: seq<Aggregate>)
    requires multiset(s) == multiset(t) && UniqueAggregates(t)
    ensures Sort(ByVersion, s) == Sort(ByVersion, t)
  {
    ByVersionIsOrder();
    OneRank(t);
    SortCanonical(ByVersion, t, s);
  }

  /** What the constructor accepts is closed and keeps every aggregate. */
  lemma MadeUsageIsClosed(u: UsageInput)
    requires MakeUsage(u).Ok?
    ensures Closed(MakeUsage(u).value) && Reorders(u, MakeUsage(u).value)
  {
    ByVersionIsOrder();
    SortIsSorted(ByVersion, u.aggregates);
    NoError(u, Sort(ByVersion, u.aggregates));
    assert Sort(ByVersion, u.aggregates) != [];
  }

  /** And it accepts every closed set, whatever order it comes in. */
  lemma ClosedUsageIsMade(u: UsageInput, v: UsageInput)
    requires Closed(v) && Reorders(u, v)
    ensures MakeUsage(u) == Ok(v)
  {
    ByVersionIsOrder();
    assert u.aggregates != [] by { assert v.aggregates[0] in multiset(u.aggregates); }
    OneRank(v.aggregates);
    SortIsSorted(ByVersion, u.aggregates);
    SortedUnique(ByVersion, v.aggregates, Sort(ByVersion, u.aggregates));
    NoError(u, v.aggregates);
  }

  /** When the constructor succeeds, in the caller's terms. */
  lemma MadeExactly(u: UsageInput)
    ensures MakeUsage(u).Ok? <==>
      && u.aggregates != [] && UniqueAggregates(u.aggregates)
      && forall a <- u.aggregates ::
           && a.scope == u.scope && a.meterId == u.meterId && a.meterVersion == u.meterVersion
           && u.window.start <= a.window.start && a.window.end <= u.window.end <= a.watermark
  {
    var sorted := Sort(ByVersion, u.aggregates);
    ByVersionIsOrder();
    SortIsSorted(ByVersion, u.aggregates);
    SortedIsUnique(u.aggregates);
    NoError(u, sorted);
    forall a ensures a in sorted <==> a in u.aggregates {
      assert a in sorted <==> a in multiset(sorted);
      assert a in u.aggregates <==> a in multiset(u.aggregates);
    }
  }

  /** Which error it raises: nothing or a duplicate is unclosed, and so is an aggregate that is
      not complete when none is foreign; a foreign one is invalid when all are complete. */
  lemma UsageErrors(u: UsageInput)
    requires MakeUsage(u).Err?
    ensures u.aggregates == [] || !UniqueAggregates(u.aggregates) ==> MakeUsage(u).error == UnclosedUsage
    ensures (forall a <- u.aggregates ::
               && a.scope == u.scope && a.meterId == u.meterId && a.meterVersion == u.meterVersion
               && u.window.start <= a.window.start && a.window.end <= u.window.end) ==> MakeUsage(u).error == UnclosedUsage
    ensures u.aggregates != [] && UniqueAggregates(u.aggregates) && (forall a <- u.aggregates :: u.window.end <= a.watermark) ==>
      MakeUsage(u).error == InvalidCost
  {
    var sorted := Sort(ByVersion, u.aggregates);
    ByVersionIsOrder();
    SortIsSorted(ByVersion, u.aggregates);
    SortedIsUnique(u.aggregates);
    NoError(u, sorted);
    forall a | a in sorted ensures a in u.aggregates { assert a in multiset(sorted); }
  }

  // ---- the quantity ----

  /** The totals of the aggregates, one after another. */
  function TotalOf(s: seq<Aggregate>): int {
    if s == [] then 0 else s[0].total + TotalOf(s[1..])
  }

  /** The quantity of a usage input is the total over all of its aggregates, if that fits. */
  lemma QuantityIsTotal(u: UsageInput)
    ensures Quantity(u) == if Abs(TotalOf(u.aggregates)) < LIMIT then Ok(TotalOf(u.aggregates)) else Err(DecimalOverflow)
  {
    TotalIsSum(u.aggregates);
  }

  lemma {:induction false} TotalIsSum(s: seq<Aggregate>)
    ensures TotalOf(s) == Sum(Totals(s))
  {
    if s != [] {
      TotalIsSum(s[1..]);
      assert Totals(s)[1..] == Totals(s[1..]);
    }
  }

  lemma {:induction false} TotalRemove(s: seq<Aggregate>, i: nat)
    requires i < |s|
    ensures TotalOf(s) == s[i].total + TotalOf(s[..i] + s[i + 1..])
  {
    if i == 0 {
      assert s[..0] + s[1..] == s[1..];
    } else {
      TotalRemove(s[1..], i - 1);
      assert (s[..i] + s[i + 1..])[1..] == s[1..][..i - 1] + s[1..][i..];
    }
  }

  lemma {:induction false} TotalAppend(s: seq<Aggregate>, a: Aggregate)
    ensures TotalOf(s + [a]) == TotalOf(s) + a.total
  {
    if s != [] {
      assert (s + [a])[1..] == s[1..] + [a];
      TotalAppend(s[1..], a);
    }
  }

  /** One more aggregate adds its total to the quantity; the first one's total is the quantity. */
  lemma QuantityGrows(u: UsageInput, a: Aggregate)
    ensures Quantity(u.(aggregates := u.aggregates + [a])) == Fit(TotalOf(u.aggregates) + a.total)
    ensures Quantity(u.(aggregates := [a])) == Fit(a.total)
    ensures Quantity(u).Ok? ==> Quantity(u.(aggregates := u.aggregates + [a])) == Fit(Quantity(u).value + a.total)
  {
    QuantityIsTotal(u);
    QuantityIsTotal(u.(aggregates := u.aggregates + [a]));
    QuantityIsTotal(u.(aggregates := [a]));
    TotalAppend(u.aggregates, a);
  }

  /** It does not depend on their order. */
  lemma {:induction false} TotalPermutes(s: seq<Aggregate>, t: seq<Aggregate>)
    requires multiset(s) == multiset(t)
    ensures TotalOf(s) == TotalOf(t)
    decreases |s|
  {
    if s == [] {
      assert |t| == |multiset(t)| == 0;
    } else {
      assert s[0] in multiset(t);
      var i :| 0 <= i < |t| && t[i] == s[0];
      TotalRemove(t, i);
      RestPermutes(s, t, i);
      TotalPermutes(s[1..], t[..i] + t[i + 1..]);
    }
  }

  lemma RestPermutes(s: seq<Aggregate>, t: seq<Aggregate>, i: nat)
    requires multiset(s) == multiset(t) && s != [] && i < |t| && t[i] == s[0]
    ensures multiset(s[1..]) == multiset(t[..i] + t[i + 1..])
  {
    WithoutOne(s, 0);
    WithoutOne(t, i);
    assert s[..0] + s[1..] == s[1..];
  }

  lemma WithoutOne(s: seq<Aggregate>, i: nat)
    requires i < |s|
    ensures multiset(s[..i] + s[i + 1..]) == multiset(s) - multiset{s[i]}
  {
    assert s == s[..i] + [s[i]] + s[i + 1..];
  }

  lemma SortedIsUnique(s: seq<Aggregate>)
    ensures UniqueAggregates(Sort(ByVersion, s)) <==> UniqueAggregates(s)
  {
    ByVersionIsOrder();
    SortIsSorted(ByVersion, s);
    if UniqueAggregates(s) { UniquePermuted(s, Sort(ByVersion, s)); }
    if UniqueAggregates(Sort(ByVersion, s)) { UniquePermuted(Sort(ByVersion, s), s); }
  }

  /** The constructor's result and its error do not depend on the order of the aggregates. */
  lemma UsageOrderIrrelevant(u: UsageInput, s: seq<Aggregate>)
    requires multiset(s) == multiset(u.aggregates)
    ensures MakeUsage(u.(aggregates := s)) == MakeUsage(u)
  {
    var t := u.aggregates;
    assert |s| == |multiset(s)| == |t|;
    SortedIsUnique(s);
    SortedIsUnique(t);
    if UniqueAggregates(s) || UniqueAggregates(t) {
      if UniqueAggregates(s) { UniquePermuted(s, t); } else { UniquePermuted(t, s); }
      SortAgrees(s, t);
      FirstErrorSame(u, s, Sort(ByVersion, t));
    }
  }

  lemma {:induction false} FirstErrorSame(u: UsageInput, s: seq<Aggregate>, t: seq<Aggregate>)
    ensures FirstError(u.(aggregates := s), t) == FirstError(u, t)
  {
    if t != [] { FirstErrorSame(u, s, t[1..]); }
  }

  // ---- fetching ----

  /** The rows of the usage store that match the card's dimensions. */
  function Matching(rows: seq<Aggregate>, key: PricingKey): seq<Aggregate> {
    Select(rows, (a: Aggregate) => MatchesDimensions(key, a.dimensions))
  }

  /** They are the rows that give every dimension of the card. */
  lemma MatchingExactly(rows: seq<Aggregate>, key: PricingKey)
    ensures forall a :: a in Matching(rows, key) <==> a in rows && GivesAll(key, a.dimensions)
  {
    forall a ensures a in Matching(rows, key) <==> a in rows && GivesAll(key, a.dimensions) {
      MatchesDimensionsExactly(key, a.dimensions);
    }
  }

  ghost predicate UniqueVersions(rows: seq<Aggregate>) {
    forall a, b :: a in rows && b in rows && a.id == b.id && a.revision == b.revision ==> a == b
  }

  /** The aggregates a fetch should price: of each aggregate with matching rows, the matching
      row with the highest revision. */
  ghost predicate Chosen(rows: seq<Aggregate>, key: PricingKey, a: Aggregate) {
    && a in rows && GivesAll(key, a.dimensions)
    && forall b <- rows :: GivesAll(key, b.dimensions) && b.id == a.id ==> b.revision <= a.revision
  }

  function Request(card: Terms, scope: Name, window: Window, unit: Name, picked: seq<Aggregate>): UsageInput {
    UsageInput(scope, window, card.key.meterId, card.key.meterVersion, unit, picked)
  }

  /** RepositoryUsageProvider.fetch: `rows` is what the aggregate query matches and `unit` the
      meter's.  The input it builds holds exactly the chosen aggregates, whatever the page
      size and the order of the rows; it fails exactly when those are not a closed set. */
  method Fetch(rows: seq<Aggregate>, pageSize: nat, card: Terms, scope: Name, window: Window, unit: Name)
    returns (r: Result<UsageInput>)
    requires 1 <= pageSize <= 500
    requires UniqueVersions(rows)
    ensures forall picked :: Picks(rows, card.key, picked) ==> r == MakeUsage(Request(card, scope, window, unit, picked))
    ensures exists picked :: Picks(rows, card.key, picked)
    ensures r.Ok? ==> Closed(r.value) && forall a :: a in r.value.aggregates <==> Chosen(rows, card.key, a)
    ensures r.Ok? ==> r.value.scope == scope && r.value.window == window && r.value.unit == unit
    ensures r.Ok? ==> r.value.meterId == card.key.meterId && r.value.meterVersion == card.key.meterVersion
    ensures r.Ok? <==> (exists a :: Chosen(rows, card.key, a))
                         && forall a :: Chosen(rows, card.key, a) ==> Suits(card, scope, window, a)
    ensures r.Ok? ==> forall picked :: Picks(rows, card.key, picked) ==> Quantity(r.value) == Fit(TotalOf(picked))
  {
    var aggregates := Scan(rows, pageSize);
    var picked := LatestPerKey(Matching(aggregates, card.key), AggregateId, AggregateRevision);
    NewestIsPicked(rows, card.key, picked);
    r := MakeUsage(Request(card, scope, window, unit, picked));
    forall other | Picks(rows, card.key, other)
      ensures r == MakeUsage(Request(card, scope, window, unit, other))
    {
      PicksAgree(rows, rows, card.key, other, picked);
      UsageOrderIrrelevant(Request(card, scope, window, unit, picked), other);
    }
    FetchedExactly(rows, card, scope, window, unit, picked);
  }

  /** The aggregate is of the requested scope and the card's meter, lies in the window, and is
      complete for it. */
  predicate Suits(card: Terms, scope: Name, window: Window, a: Aggregate) {
    && a.scope == scope && a.meterId == card.key.meterId && a.meterVersion == card.key.meterVersion
    && window.start <= a.window.start && a.window.end <= window.end <= a.watermark
  }

  /** What a fetch returns for the rows it picks. */
  lemma FetchedExactly(rows: seq<Aggregate>, card: Terms, scope: Name, window: Window, unit: Name, picked: seq<Aggregate>)
    requires Picks(rows, card.key, picked)
    ensures var r := MakeUsage(Request(card, scope, window, unit, picked));
      && (r.Ok? <==> (exists a :: Chosen(rows, card.key, a))
                       && forall a :: Chosen(rows, card.key, a) ==> Suits(card, scope, window, a))
      && (r.Ok? ==> Closed(r.value) && r.value == Request(card, scope, window, unit, r.value.aggregates))
      && (r.Ok? ==> forall a :: a in r.value.aggregates <==> Chosen(rows, card.key, a))
      && (r.Ok? ==> forall other :: Picks(rows, card.key, other) ==> Quantity(r.value) == Fit(TotalOf(other)))
  {
    var u := Request(card, scope, window, unit, picked);
    MadeExactly(u);
    assert (exists a :: Chosen(rows, card.key, a)) <==> picked != [] by {
      if picked != [] { assert picked[0] in picked; }
    }
    if MakeUsage(u).Ok? {
      var v := MakeUsage(u).value;
      MadeUsageIsClosed(u);
      forall a ensures a in v.aggregates <==> Chosen(rows, card.key, a) {
        assert a in multiset(v.aggregates) <==> a in multiset(picked);
        assert a in picked <==> Chosen(rows, card.key, a);
      }
      QuantityIsTotal(v);
      forall other | Picks(rows, card.key, other) ensures Quantity(v) == Fit(TotalOf(other)) {
        PicksAgree(rows, rows, card.key, picked, other);
        TotalPermutes(v.aggregates, other);
      }
    }
  }

  /** `picked` lists the chosen aggregates once each. */
  ghost predicate Picks(rows: seq<Aggregate>, key: PricingKey, picked: seq<Aggregate>) {
    UniqueAggregates(picked) && forall a :: a in picked <==> Chosen(rows, key, a)
  }

  lemma NewestIsPicked(rows: seq<Aggregate>, key: PricingKey, picked: seq<Aggregate>)
    requires UniqueVersions(rows)
    requires Newest(Matching(rows, key), AggregateId, AggregateRevision, picked)
    ensures Picks(rows, key, picked)
  {
    var items := Matching(rows, key);
    MatchingExactly(rows, key);
    forall i, j | 0 <= i < j < |picked| ensures picked[i].id != picked[j].id {
      assert AggregateId(picked[i]) != AggregateId(picked[j]);
    }
    forall a ensures a in picked <==> Chosen(rows, key, a) {
      if a in picked { PickedIsChosen(rows, key, picked, a); }
      if Chosen(rows, key, a) {
        assert a in items;
        var v :| v in picked && AggregateId(v) == AggregateId(a);
        PickedIsChosen(rows, key, picked, v);
        assert v.revision == a.revision;
      }
    }
  }

  lemma PickedIsChosen(rows: seq<Aggregate>, key: PricingKey, picked: seq<Aggregate>, a: Aggregate)
    requires Newest(Matching(rows, key), AggregateId, AggregateRevision, picked) && a in picked
    ensures Chosen(rows, key, a)
  {
    MatchingExactly(rows, key);
    forall b | b in rows && GivesAll(key, b.dimensions) && b.id == a.id ensures b.revision <= a.revision {
      assert b in Matching(rows, key) && AggregateId(b) == AggregateId(a);
      assert AggregateRevision(b) <= AggregateRevision(a);
    }
  }

  /** Two row lists with the same rows choose the same aggregates. */
  lemma PicksAgree(rows: seq<Aggregate>, other: seq<Aggregate>, key: PricingKey,
                   picked: seq<Aggregate>, again: seq<Aggregate>)
    requires forall a :: a in rows <==> a in other
    requires Picks(rows, key, picked) && Picks(other, key, again)
    ensures multiset(picked) == multiset(again)
  {
    assert DistinctBy(AggregateId, picked) && DistinctBy(AggregateId, again);
    forall a ensures multiset(picked)[a] == multiset(again)[a] {
      OccursOnce(picked, AggregateId, a);
      OccursOnce(again, AggregateId, a);
      assert Chosen(rows, key, a) <==> Chosen(other, key, a);
      assert a in picked <==> a in multiset(picked);
      assert a in again <==> a in multiset(again);
    }
  }

  /** So the input, its fingerprint and its quantity do not depend on row order or paging. */
  lemma FetchIgnoresRowOrder(rows: seq<Aggregate>, other: seq<Aggregate>, card: Terms, scope: Name,
                             window: Window, unit: Name, picked: seq<Aggregate>, again: seq<Aggregate>)
    requires multiset(rows) == multiset(other)
    requires Picks(rows, card.key, picked) && Picks(other, card.key, again)
    ensures MakeUsage(Request(card, scope, window, unit, picked)) == MakeUsage(Request(card, scope, window, unit, again))
  {
    forall a ensures a in rows <==> a in other {
      assert a in rows <==> a in multiset(rows);
      assert a in other <==> a in multiset(other);
    }
    PicksAgree(rows, other, card.key, picked, again);
    UsageOrderIrrelevant(Request(card, scope, window, unit, again), picked);
  }
}
