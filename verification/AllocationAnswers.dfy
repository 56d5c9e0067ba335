/** What allocate_amount answers: which weight gets which amount, said of the amounts alone. */
module AllocationAnswers {
  import opened Decimals
  import opened Rounding
  import opened Sorting
  import opened Allocation
  import opened AllocationPrecision
  import opened AllocationLaws
  import opened AllocationQuota
  import opened AllocationOptimality

  /** The total distance of the amounts from the exact proportional ones, over the common
      denominator of these. */
  function AmountDeviation(total: int, ws: seq<Weight>, r: seq<int>): int
    requires |r| == |ws| && Sum(Weights(ws)) > 0
  {
    Sum(Distances(Scaled(Weights(ws), total), Sum(Weights(ws)), r))
  }

  /** Another split of the same total on the same grid. */
  ghost predicate Splits(total: int, ws: seq<Weight>, q: nat, t: seq<int>)
    requires q > 0
  {
    |t| == |ws| && Sum(t) == total && forall i :: 0 <= i < |t| ==> t[i] % q == 0
  }

  /** The amounts add up to the total, have its sign and lie on its grid. */
  ghost predicate AddsUp(total: int, ws: seq<Weight>, q: nat, r: seq<int>)
    requires q > 0
  {
    && Splits(total, ws, q, r)
    && forall i :: 0 <= i < |r| ==> Fits(r[i]) && if total < 0 then r[i] <= 0 else r[i] >= 0
  }

  /** Every amount is less than one quantum away from its exact share of the total, and equal
      to it where that is on the grid. */
  ghost predicate Proportional(total: int, ws: seq<Weight>, q: nat, r: seq<int>)
    requires |r| == |ws| && q > 0 && Sum(Weights(ws)) > 0
  {
    var w := Sum(Weights(ws));
    forall i :: 0 <= i < |r| ==>
      && Abs(r[i] * w - total * ws[i].weight) < q * w
      && (q * w > 0 && total * ws[i].weight % (q * w) == 0 ==> r[i] * w == total * ws[i].weight)
  }

  /** A larger weight never gets a smaller amount, and of two equal weights the one with the
      smaller key is served first. */
  ghost predicate FairlyOrdered(ws: seq<Weight>, r: seq<int>)
    requires |r| == |ws|
  {
    forall i, j :: 0 <= i < |r| && 0 <= j < |r| ==>
      (ws[i].weight > ws[j].weight || (ws[i].weight == ws[j].weight && ws[i].key < ws[j].key)) ==> Abs(r[i]) >= Abs(r[j])
  }

  /** While the precision suffices, no other split of the total on the grid deviates less. */
  ghost predicate Best(prec: Precision, total: int, ws: seq<Weight>, q: nat, r: seq<int>)
    requires |r| == |ws| && q > 0 && Sum(Weights(ws)) > 0
  {
    3 * (Abs(total) * Sum(Weights(ws))) < Fine(prec) * q ==>
      forall t: seq<int> :: Splits(total, ws, q, t) ==> AmountDeviation(total, ws, r) <= AmountDeviation(total, ws, t)
  }

  ghost predicate Apportions(prec: Precision, total: int, ws: seq<Weight>, scale: nat, r: seq<int>)
    requires scale <= 18 && Sum(Weights(ws)) > 0
  {
    var q := Quantum(scale);
    && AddsUp(total, ws, q, r) && Proportional(total, ws, q, r) && FairlyOrdered(ws, r) && Best(prec, total, ws, q, r)
  }

  /** The amount is one quantum above the floor of the computed quota `x` / `d`. */
  predicate Served(q: nat, x: int, d: nat, r: int) requires d > 0 { Abs(r) == q * (x / d + 1) }

  /** `i` has a larger computed fraction than `j`, or the same one and a smaller key. */
  predicate Precedes(raw: seq<int>, ws: seq<Weight>, d: nat, i: nat, j: nat)
    requires d > 0 && |raw| == |ws| && i < |ws| && j < |ws|
  {
    raw[i] % d > raw[j] % d || (raw[i] % d == raw[j] % d && ws[i].key < ws[j].key)
  }

  /** Every amount is at the floor of its computed quota or served, and whoever precedes a
      position that is served is served too. */
  ghost predicate ServedInOrder(prec: Precision, total: int, ws: seq<Weight>, scale: nat, r: seq<int>)
    requires scale <= 18 && Sum(Weights(ws)) > 0 && |r| == |ws|
  {
    var d, q, raw := Unit(prec), Quantum(scale), RawUnits(prec, UnitCount(total, scale), ws);
    && (forall j :: 0 <= j < |r| ==> Abs(r[j]) == q * (raw[j] / d) || Served(q, raw[j], d, r[j]))
    && (forall i, j :: 0 <= i < |r| && 0 <= j < |r| ==>
          Served(q, raw[j], d, r[j]) && Precedes(raw, ws, d, i, j) ==> Served(q, raw[i], d, r[i]))
  }

  // ---- from units to amounts ----

  /** One amount in terms of its units. */
  lemma AmountOf(s: int, u: nat, w: nat, total: int, q: nat, a: nat, r: int)
    requires q > 0 && total == Sign(total) * q * u && r == Sign(total) * q * s
    ensures Abs(r * w - total * a) == q * Abs(s * w - u * a)
    ensures s >= 0 ==> Abs(r) == q * s
  {
    var z := s * w - u * a;
    ProductsOf(s, u, w, q, a);
    if total < 0 {
      assert total == -(q * u) && r == -(q * s);
      assert r * w - total * a == -(z * q);
    } else {
      assert total == q * u && r == q * s;
      assert r * w - total * a == z * q;
    }
    AbsMul(z, q);
    AbsMul(s, q);
  }

  lemma ProductsOf(s: int, u: int, w: int, q: int, a: int)
    ensures (q * s) * w - (q * u) * a == (s * w - u * a) * q
    ensures -(q * s) * w + (q * u) * a == -((s * w - u * a) * q)
    ensures -1 * q * u == -(q * u) && -1 * q * s == -(q * s) && -(q * u) * a == -((q * u) * a)
  {
  }

  /** A difference of two multiples that is smaller than their quantum is nothing. */
  lemma MultiplesMeet(x: int, y: int, m: nat)
    requires m > 0 && x % m == 0 && y % m == 0 && Abs(x - y) < m
    ensures x == y
  {
    if x < y { MultiplesApart(x, y, m); }
    if y < x { MultiplesApart(y, x, m); }
  }

  lemma GridProduct(r: int, q: nat, w: nat)
    requires q > 0 && w > 0 && r % q == 0
    ensures q * w > 0 && (r * w) % (q * w) == 0
  {
    LeMul(1, q, w);
    var k := r / q;
    assert r == k * q;
    assert r * w == k * (q * w);
    MultipleMod(k, q * w);
  }

  lemma AmountsProportional(prec: Precision, total: int, ws: seq<Weight>, scale: nat, r: seq<int>)
    requires ValidSpec(ws) && Fits(total) && AllocationOf(prec, total, ws, scale) == Ok(r)
    ensures Proportional(total, ws, Quantum(scale), r)
  {
    var u, q, w := UnitCount(total, scale), Quantum(scale), Sum(Weights(ws));
    UnitCountExact(total, scale);
    AllocationConserves(prec, total, ws, scale);
    forall i | 0 <= i < |r|
      ensures Abs(r[i] * w - total * ws[i].weight) < q * w
      ensures q * w > 0 && total * ws[i].weight % (q * w) == 0 ==> r[i] * w == total * ws[i].weight
    {
      QuotaRule(prec, u, ws, i);
      AmountOf(Shares(prec, u, ws)[i], u, w, total, q, ws[i].weight, r[i]);
      LtMul(Abs(Shares(prec, u, ws)[i] * w - u * ws[i].weight), w, q);
      GridProduct(r[i], q, w);
      if total * ws[i].weight % (q * w) == 0 { MultiplesMeet(r[i] * w, total * ws[i].weight, q * w); }
    }
  }

  // ---- the order of service ----

  lemma OrderIsSorted(prec: Precision, raw: seq<int>, k: nat, l: nat)
    requires k < l < |raw| == |Order(prec, raw)|
    ensures Before(prec, raw, Order(prec, raw)[k], Order(prec, raw)[l])
  {
    BeforeIsPreorder(prec, raw);
    var leq := (i: nat, j: nat) => Before(prec, raw, i, j);
    OrderVisits(leq, |raw|);
    assert leq(Order(prec, raw)[k], Order(prec, raw)[l]);
  }

  lemma ShareAt(prec: Precision, units: nat, ws: seq<Weight>, i: nat)
    requires ValidSpec(ws) && units < LIMIT && i < |ws|
    ensures var raw, n := RawUnits(prec, units, ws), Remaining(prec, units, ws);
      && 0 <= n <= |raw| == |Order(prec, raw)| && Visits(Order(prec, raw), |raw|)
      && Shares(prec, units, ws)[i] == raw[i] / Unit(prec) + if i in Order(prec, raw)[..n] then 1 else 0
  {
    var raw, n := RawUnits(prec, units, ws), Remaining(prec, units, ws);
    OrderIsVisit(prec, raw);
    RemainingRange(prec, units, ws);
    assert Prefix(Order(prec, raw), n) == Order(prec, raw)[..n];
  }

  lemma KeyOrder(ws: seq<Weight>, i: nat, j: nat)
    requires ValidSpec(ws) && i < |ws| && j < |ws| && ws[i].key < ws[j].key
    ensures i < j
  {
  }

  lemma ServedFirst(prec: Precision, units: nat, ws: seq<Weight>, i: nat, j: nat)
    requires ValidSpec(ws) && units < LIMIT && i < |ws| && j < |ws|
    requires Precedes(RawUnits(prec, units, ws), ws, Unit(prec), i, j)
    requires Shares(prec, units, ws)[j] == RawUnits(prec, units, ws)[j] / Unit(prec) + 1
    ensures Shares(prec, units, ws)[i] == RawUnits(prec, units, ws)[i] / Unit(prec) + 1
  {
    ShareAt(prec, units, ws, i);
    ShareAt(prec, units, ws, j);
    if ws[i].key < ws[j].key { KeyOrder(ws, i, j); }
    ChosenFirst(prec, RawUnits(prec, units, ws), Remaining(prec, units, ws), i, j);
  }

  /** Whatever comes before a chosen position is chosen. */
  lemma ChosenFirst(prec: Precision, raw: seq<int>, n: nat, i: nat, j: nat)
    requires Visits(Order(prec, raw), |raw|) && n <= |raw| && i < |raw| && j < |raw| && j in Order(prec, raw)[..n]
    requires raw[i] % Unit(prec) > raw[j] % Unit(prec) || (raw[i] % Unit(prec) == raw[j] % Unit(prec) && i < j)
    ensures i in Order(prec, raw)[..n]
  {
    var order := Order(prec, raw);
    var k :| 0 <= k < n && order[..n][k] == j;
    assert i in order;
    var l :| 0 <= l < |order| && order[l] == i;
    if k < l { OrderIsSorted(prec, raw, k, l); }
    assert order[..n][l] == i;
  }

  lemma SharesAreFloors(prec: Precision, units: nat, ws: seq<Weight>, i: nat)
    requires ValidSpec(ws) && i < |ws|
    ensures var s, x := Shares(prec, units, ws)[i], RawUnits(prec, units, ws)[i] / Unit(prec); s == x || s == x + 1
  {
  }

  lemma EqualWeights(prec: Precision, units: nat, ws: seq<Weight>, i: nat, j: nat)
    requires ValidSpec(ws) && units < LIMIT && i < |ws| && j < |ws|
    requires ws[i].weight == ws[j].weight && ws[i].key < ws[j].key
    ensures Shares(prec, units, ws)[i] >= Shares(prec, units, ws)[j]
  {
    SharesAreFloors(prec, units, ws, i);
    SharesAreFloors(prec, units, ws, j);
    if Shares(prec, units, ws)[j] == RawUnits(prec, units, ws)[j] / Unit(prec) + 1 {
      ServedFirst(prec, units, ws, i, j);
    }
  }

  lemma AmountsFair(prec: Precision, total: int, ws: seq<Weight>, scale: nat, r: seq<int>)
    requires ValidSpec(ws) && Fits(total) && AllocationOf(prec, total, ws, scale) == Ok(r)
    ensures FairlyOrdered(ws, r)
  {
    var u, q, s := UnitCount(total, scale), Quantum(scale), Shares(prec, UnitCount(total, scale), ws);
    UnitCountExact(total, scale);
    SharesConserve(prec, u, ws);
    forall i, j | 0 <= i < |r| && 0 <= j < |r|
      && (ws[i].weight > ws[j].weight || (ws[i].weight == ws[j].weight && ws[i].key < ws[j].key))
      ensures Abs(r[i]) >= Abs(r[j])
    {
      if ws[i].weight > ws[j].weight { LargerWeightLargerShare(prec, u, ws, i, j); } else { EqualWeights(prec, u, ws, i, j); }
      AmountOf(s[i], u, 0, total, q, 0, r[i]);
      AmountOf(s[j], u, 0, total, q, 0, r[j]);
      LeMul(s[j], s[i], q);
    }
  }

  lemma AmountServed(s: int, base: int, x: int, d: nat, u: nat, total: int, q: nat, r: int)
    requires q > 0 && d > 0 && total == Sign(total) * q * u && r == Sign(total) * q * s
    requires s >= 0 && base == x / d && (s == base || s == base + 1)
    ensures Abs(r) == q * base || Served(q, x, d, r)
    ensures Served(q, x, d, r) <==> s == base + 1
  {
    AmountOf(s, u, 0, total, q, 0, r);
    if q * s == q * (base + 1) { SameFactor(s, base + 1, q); }
  }

  lemma AmountServedAt(prec: Precision, total: int, ws: seq<Weight>, scale: nat, r: seq<int>, j: nat)
    requires ValidSpec(ws) && Fits(total) && AllocationOf(prec, total, ws, scale) == Ok(r) && j < |r|
    ensures var q, d, x := Quantum(scale), Unit(prec), RawUnits(prec, UnitCount(total, scale), ws)[j];
      && (Abs(r[j]) == q * (x / d) || Served(q, x, d, r[j]))
      && (Served(q, x, d, r[j]) <==> Shares(prec, UnitCount(total, scale), ws)[j] == x / d + 1)
  {
    var u := UnitCount(total, scale);
    UnitCountExact(total, scale);
    SharesConserve(prec, u, ws);
    SharesAreFloors(prec, u, ws, j);
    var x := RawUnits(prec, u, ws)[j];
    AmountServed(Shares(prec, u, ws)[j], x / Unit(prec), x, Unit(prec), u, total, Quantum(scale), r[j]);
  }

  lemma AmountsServed(prec: Precision, total: int, ws: seq<Weight>, scale: nat, r: seq<int>)
    requires ValidSpec(ws) && Fits(total) && AllocationOf(prec, total, ws, scale) == Ok(r)
    ensures ServedInOrder(prec, total, ws, scale, r)
  {
    var u, q, d := UnitCount(total, scale), Quantum(scale), Unit(prec);
    var raw := RawUnits(prec, u, ws);
    UnitCountExact(total, scale);
    forall j | 0 <= j < |r| ensures Abs(r[j]) == q * (raw[j] / d) || Served(q, raw[j], d, r[j]) {
      AmountServedAt(prec, total, ws, scale, r, j);
    }
    forall i, j | 0 <= i < |r| && 0 <= j < |r| && Served(q, raw[j], d, r[j]) && Precedes(raw, ws, d, i, j)
      ensures Served(q, raw[i], d, r[i])
    {
      AmountServedAt(prec, total, ws, scale, r, i);
      AmountServedAt(prec, total, ws, scale, r, j);
      ServedFirst(prec, u, ws, i, j);
    }
  }

  // ---- the best split on the grid ----

  /** The units of an amount on the grid, with the sign of the total. */
  function UnitsOf(t: seq<int>, total: int, q: nat): (s: seq<int>)
    requires q > 0
    ensures |s| == |t|
  {
    seq(|t|, i requires 0 <= i < |t| => Sign(total) * (t[i] / q))
  }

  lemma UnitsBack(x: int, total: int, q: nat)
    requires q > 0 && x % q == 0
    ensures Sign(total) * q * (Sign(total) * (x / q)) == x
  {
    assert x == x / q * q;
    var k := x / q;
    if total < 0 { assert -1 * q * (-1 * k) == k * q; } else { assert 1 * q * (1 * k) == k * q; }
  }

  lemma SplitUnits(total: int, ws: seq<Weight>, q: nat, u: nat, t: seq<int>)
    requires q > 0 && Splits(total, ws, q, t) && total == Sign(total) * q * u
    ensures Sum(UnitsOf(t, total, q)) == u
    ensures forall i :: 0 <= i < |t| ==> t[i] == Sign(total) * q * UnitsOf(t, total, q)[i]
  {
    var s := UnitsOf(t, total, q);
    forall i | 0 <= i < |t| ensures t[i] == Sign(total) * q * s[i] { UnitsBack(t[i], total, q); }
    SumScaled(s, t, Sign(total) * q);
    SameSigned(Sum(s), u, total, q);
  }

  lemma SameSigned(x: int, y: int, total: int, q: nat)
    requires q > 0 && Sign(total) * q * x == Sign(total) * q * y
    ensures x == y
  {
    if total < 0 { assert -1 * q * x == -(q * x) && -1 * q * y == -(q * y); }
    assert x * q == y * q;
    SameFactor(x, y, q);
  }

  /** Deviations of amounts are those of their units, times the quantum. */
  lemma DeviationOfUnits(total: int, ws: seq<Weight>, q: nat, u: nat, s: seq<int>, t: seq<int>)
    requires q > 0 && |s| == |t| == |ws| && Sum(Weights(ws)) > 0 && total == Sign(total) * q * u
    requires forall i :: 0 <= i < |t| ==> t[i] == Sign(total) * q * s[i]
    ensures AmountDeviation(total, ws, t) == q * Deviation(u, Weights(ws), Sum(Weights(ws)), s)
  {
    var w := Sum(Weights(ws));
    var units, amounts := Distances(Scaled(Weights(ws), u), w, s), Distances(Scaled(Weights(ws), total), w, t);
    forall i | 0 <= i < |t| ensures amounts[i] == q * units[i] { AmountOf(s[i], u, w, total, q, ws[i].weight, t[i]); }
    SumScaled(units, amounts, q);
  }

  lemma PrecisionSuffices(total: int, w: nat, q: nat, u: nat, f: nat)
    requires q > 0 && Abs(total) == q * u && 3 * (Abs(total) * w) < f * q
    ensures 3 * (u * w) < f
  {
    assert 3 * (q * u * w) == 3 * (u * w) * q;
    CancelLt(3 * (u * w), f, q);
  }

  lemma AmountsBest(prec: Precision, total: int, ws: seq<Weight>, scale: nat, r: seq<int>)
    requires ValidSpec(ws) && Fits(total) && AllocationOf(prec, total, ws, scale) == Ok(r)
    ensures Best(prec, total, ws, Quantum(scale), r)
  {
    var u, q, w, s := UnitCount(total, scale), Quantum(scale), Sum(Weights(ws)), Shares(prec, UnitCount(total, scale), ws);
    UnitCountExact(total, scale);
    if 3 * (Abs(total) * w) < Fine(prec) * q {
      AmountOf(u, u, 0, total, q, 0, total);
      PrecisionSuffices(total, w, q, u, Fine(prec));
      DeviationOfUnits(total, ws, q, u, s, r);
      forall t: seq<int> | Splits(total, ws, q, t) ensures AmountDeviation(total, ws, r) <= AmountDeviation(total, ws, t) {
        var v := UnitsOf(t, total, q);
        SplitUnits(total, ws, q, u, t);
        DeviationOfUnits(total, ws, q, u, v, t);
        SharesOptimal(prec, u, ws, v);
        LeMul(Deviation(u, Weights(ws), w, s), Deviation(u, Weights(ws), w, v), q);
      }
    }
  }

  /** For every total, specification and scale that is accepted. */
  lemma AmountsApportion(prec: Precision, total: int, ws: seq<Weight>, scale: nat, r: seq<int>)
    requires ValidSpec(ws) && Fits(total) && AllocationOf(prec, total, ws, scale) == Ok(r)
    ensures Apportions(prec, total, ws, scale, r) && ServedInOrder(prec, total, ws, scale, r)
  {
    AllocationConserves(prec, total, ws, scale);
    AmountsProportional(prec, total, ws, scale, r);
    AmountsFair(prec, total, ws, scale, r);
    AmountsBest(prec, total, ws, scale, r);
    AmountsServed(prec, total, ws, scale, r);
  }

  // ---- the call ----

  /** One more unit at each of the first `remaining` positions of the order, in place. */
  method HandOut(baseUnits: array<int>, order: seq<nat>, remaining: nat)
    requires Visits(order, baseUnits.Length) && remaining <= |order|
    modifies baseUnits
    ensures baseUnits[..] == Bumped(old(baseUnits[..]), order[..remaining])
  {
    ghost var floors := baseUnits[..];
    assert Bumped(floors, order[..0]) == floors;
    for k := 0 to remaining
      invariant baseUnits[..] == Bumped(floors, order[..k])
    {
      BumpedStep(floors, order, k);
      baseUnits[order[k]] := baseUnits[order[k]] + 1;
    }
  }

  /** allocate_amount: floors, one increment per leftover unit, then the sign.  allocate_amount
      ends by raising AssertionError if the amounts do not add up; here that is an assertion,
      because it cannot happen. */
  method AllocateAmount(total: int, ws: seq<Weight>, scale: nat) returns (r: Result<seq<int>>)
    requires ValidSpec(ws) && Fits(total)
    ensures r == AllocationOf(PRECISION, total, ws, scale)
    ensures r.Ok? <==> scale <= 18 && total % Quantum(scale) == 0
    ensures r.Err? ==> r.error == InvalidCost
    ensures r.Ok? ==> Apportions(PRECISION, total, ws, scale, r.value)
                        && ServedInOrder(PRECISION, total, ws, scale, r.value)
  {
    if scale > 18 { return Err(InvalidCost); }
    var quantum := Quantum(scale);
    if total % quantum != 0 { return Err(InvalidCost); }
    var sign := Sign(total);
    var unitCount := UnitCount(total, scale);
    var shares := AllocateUnits(PRECISION, unitCount, ws) by { UnitCountExact(total, scale); }
    var amounts := Scaled(shares, sign * quantum);
    AmountsApportion(PRECISION, total, ws, scale, amounts);
    assert Sum(amounts) == total;
    return Ok(amounts);
  }

  method AllocateUnits(prec: Precision, unitCount: nat, ws: seq<Weight>) returns (shares: seq<int>)
    requires ValidSpec(ws) && unitCount < LIMIT
    ensures shares == Shares(prec, unitCount, ws)
  {
    var raw := RawUnits(prec, unitCount, ws);
    var floors := Floors(prec, raw);
    var baseUnits := new int[|ws|](i requires 0 <= i < |ws| => floors[i]);
    assert baseUnits[..] == floors;
    var remaining := unitCount - Sum(floors);
    RemainingRange(prec, unitCount, ws);
    var order := Order(prec, raw);
    OrderIsVisit(prec, raw);
    assert Prefix(order, remaining) == order[..remaining];
    HandOut(baseUnits, order, remaining);
    shares := baseUnits[..];
  }
}
