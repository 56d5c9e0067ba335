/** The quota rule without any bound on the inputs: rounding to 100 digits may move a floor
    or a tie, but never a share a whole unit away from its exact quota. */
module AllocationQuota {
  import opened Decimals
  import opened Sorting
  import opened Allocation
  import opened AllocationPrecision
  import opened AllocationLaws

  /** Each computed quotient is within 1/2000 of a unit of the exact one. */
  lemma QuotientClose(prec: Precision, units: nat, weight: nat, total: nat)
    requires 1 <= total <= Pow10(prec) && weight <= total && units < LIMIT
    ensures 2000 * Abs(RawUnit(prec, units, weight, total) * total - units * weight * Unit(prec))
         < total * Unit(prec)
  {
    ProductIsNatural(units, weight);
    RawError(prec, units * weight, total);
    FineExceeds(prec, units);
    LeMul(weight, total, units);
    CloseEnough(Abs(RawUnit(prec, units, weight, total) * total - units * weight * Unit(prec)),
                units * weight, units, total, Unit(prec), Fine(prec));
  }

  lemma CloseEnough(e: nat, a: nat, units: nat, total: nat, d: nat, f: nat)
    requires total > 0 && d > 0 && f > 0 && a <= units * total
    requires 2 * e * f <= 3 * (a * d) && 6000 * units < 2 * f
    ensures 2000 * e < total * d
  {
    ProductIsNatural(total, d);
    LeMul(1, total, d);
    LeMul(a, units * total, d);
    assert units * total * d == units * (total * d);
    CloseProduct(e, units, total * d, f);
  }

  lemma CloseProduct(e: nat, units: nat, td: nat, f: nat)
    requires td > 0 && f > 0 && 2 * e * f <= 3 * (units * td) && 6000 * units < 2 * f
    ensures 2000 * e < td
  {
    LtMul(6000 * units, 2 * f, td);
    assert 6000 * units * td == 6000 * (units * td);
    assert 2000 * (2 * e * f) == (2000 * e) * (2 * f);
    CancelLt(2000 * e, td, 2 * f);
  }

  /** Ones at the first `k` positions of the order. */
  function Chosen(order: seq<nat>, k: nat, n: nat): (s: seq<int>)
    requires k <= |order|
    ensures |s| == n
  {
    Bumped(seq(n, i => 0), order[..k])
  }

  lemma {:induction false} ZeroSum(n: nat)
    ensures Sum(seq<int>(n, i => 0)) == 0
  {
    if n > 0 {
      assert seq<int>(n, i => 0)[1..] == seq<int>(n - 1, i => 0);
      ZeroSum(n - 1);
    }
  }

  lemma ChosenSum(order: seq<nat>, k: nat, n: nat)
    requires Visits(order, n) && k <= n
    ensures Sum(Chosen(order, k, n)) == k
  {
    ZeroSum(n);
    BumpedSum(seq(n, i => 0), order, k);
  }

  lemma InPrefix(order: seq<nat>, n: nat, i: nat, k: nat)
    requires Visits(order, n) && i < n && k <= n
    ensures exists l :: 0 <= l < n && order[l] == i && (i in order[..k] <==> l < k)
  {
    assert i in order;
    var l :| 0 <= l < n && order[l] == i;
    if l < k { assert order[..k][l] == i; }
  }

  /** Values that descend along `order` lie, in sum, between what their first `k` members and
      their `k`-th value allow. */
  lemma DescendingSum(order: seq<nat>, v: seq<int>, k: nat, top: int)
    requires Visits(order, |v|) && k < |v|
    requires forall i :: 0 <= i < |v| ==> 0 <= v[i] <= top
    requires forall j, l :: 0 <= j < l < |v| ==> v[order[j]] >= v[order[l]]
    ensures (k + 1) * v[order[k]] <= Sum(v)
    ensures Sum(v) <= k * top + |v| * v[order[k]]
  {
    var n, x := |v|, v[order[k]];
    var low := Scaled(Chosen(order, k + 1, n), x);
    var high := Scaled(Chosen(order, k, n), top);
    var flat := seq(n, i requires 0 <= i < n => x);
    var above := seq(n, i requires 0 <= i < n => high[i] + flat[i]);
    forall i | 0 <= i < n ensures low[i] <= v[i] <= above[i] {
      InPrefix(order, n, i, k + 1);
      InPrefix(order, n, i, k);
      assert x * 1 == x && x * 0 == 0 && top * 1 == top && top * 0 == 0;
    }
    SumLe(low, v);
    SumLe(v, above);
    ChosenSum(order, k + 1, n);
    ChosenSum(order, k, n);
    ScaledSum(Chosen(order, k + 1, n), x);
    ScaledSum(Chosen(order, k, n), top);
    SumAdd(high, flat, above);
    FlatSum(flat, x);
  }

  lemma {:induction false} FlatSum(s: seq<int>, x: int)
    requires forall i :: 0 <= i < |s| ==> s[i] == x
    ensures Sum(s) == |s| * x
  {
    if s != [] {
      FlatSum(s[1..], x);
      NextProduct(|s| - 1, x);
    }
  }

  function Fractions(prec: Precision, raw: seq<int>): (s: seq<int>)
    ensures |s| == |raw|
  {
    seq(|raw|, i requires 0 <= i < |raw| => raw[i] % Unit(prec))
  }

  /** The fractions add up to the leftover units, give or take half a unit. */
  lemma FractionSum(prec: Precision, units: nat, ws: seq<Weight>)
    requires ValidSpec(ws) && units < LIMIT
    ensures 2 * Abs(Sum(Fractions(prec, RawUnits(prec, units, ws)))
                    - Unit(prec) * Remaining(prec, units, ws)) < Unit(prec)
  {
    RawSum(prec, units, ws);
    FractionSumOf(RawUnits(prec, units, ws), Floors(prec, RawUnits(prec, units, ws)),
                  Fractions(prec, RawUnits(prec, units, ws)), units, Unit(prec));
  }

  lemma FractionSumOf(raw: seq<int>, base: seq<int>, fractions: seq<int>, units: nat, d: nat)
    requires d > 0 && |raw| == |base| == |fractions| && 2 * Abs(Sum(raw) - d * units) < d
    requires forall i :: 0 <= i < |raw| ==> base[i] == raw[i] / d && fractions[i] == raw[i] % d
    ensures 2 * Abs(Sum(fractions) - d * (units - Sum(base))) < d
  {
    var whole := Scaled(base, d);
    forall i | 0 <= i < |raw| ensures raw[i] == whole[i] + fractions[i] { DivMod(raw[i], d); }
    SumAdd(whole, fractions, raw);
    ScaledSum(base, d);
    assert d * (units - Sum(base)) == d * units - d * Sum(base);
  }

  /** A position that gets a unit has a fraction of at least 1/2000, and one that gets none
      falls short of a whole unit by at least 1/2000. */
  lemma FractionGap(sum: int, x: int, k: nat, n: nat, remaining: int, d: nat)
    requires d > 0 && k < n <= 1000 && 0 <= x < d
    requires (k + 1) * x <= sum <= k * d + n * x
    requires 2 * Abs(sum - d * remaining) < d
    ensures k < remaining ==> 2000 * x >= d
    ensures k >= remaining ==> 2000 * (d - x) >= d
  {
    if k < remaining {
      LeMul(k + 1, remaining, d);
      NextProduct(k, d);
      LeMul(n, 1000, x);
    } else {
      LeMul(remaining, k, d);
      assert (k + 1) * (d - x) == k * d + d - (k + 1) * x;
      LeMul(k + 1, 1000, d - x);
    }
  }

  /** The same for position `i` of an order that descends by fraction. */
  lemma PositionGap(order: seq<nat>, fractions: seq<int>, i: nat, remaining: nat, d: nat)
    requires d > 0 && Visits(order, |fractions|) && i < |fractions| <= 1000 && remaining <= |fractions|
    requires forall j :: 0 <= j < |fractions| ==> 0 <= fractions[j] < d
    requires forall j, l :: 0 <= j < l < |fractions| ==> fractions[order[j]] >= fractions[order[l]]
    requires 2 * Abs(Sum(fractions) - d * remaining) < d
    ensures if i in order[..remaining] then 2000 * fractions[i] >= d else 2000 * (d - fractions[i]) >= d
  {
    InPrefix(order, |fractions|, i, remaining);
    var k :| 0 <= k < |fractions| && order[k] == i && (i in order[..remaining] <==> k < remaining);
    DescendingSum(order, fractions, k, d);
    FractionGap(Sum(fractions), fractions[i], k, |fractions|, remaining, d);
  }

  /** Quota rule: for every total and every specification, each share differs from its exact
      quota by less than one unit.  So it is the floor or the ceiling of the quota, and a
      quota that is a whole number of units is granted exactly. */
  lemma QuotaRule(prec: Precision, units: nat, ws: seq<Weight>, i: nat)
    requires ValidSpec(ws) && units < LIMIT && i < |ws|
    ensures Abs(Shares(prec, units, ws)[i] * Sum(Weights(ws)) - units * ws[i].weight)
         < Sum(Weights(ws))
  {
    var raw, total := RawUnits(prec, units, ws), Sum(Weights(ws));
    TotalWeight(prec, ws);
    QuotientClose(prec, units, ws[i].weight, total);
    var bumped := BumpGap(prec, units, ws, i);
    DivMod(raw[i], Unit(prec));
    ShareWithinOne(raw[i], raw[i] / Unit(prec), raw[i] % Unit(prec), bumped,
                   Shares(prec, units, ws)[i], units * ws[i].weight, total, Unit(prec));
  }

  lemma BumpGap(prec: Precision, units: nat, ws: seq<Weight>, i: nat) returns (bumped: bool)
    requires ValidSpec(ws) && units < LIMIT && i < |ws|
    ensures var x := RawUnits(prec, units, ws)[i]; var f := x % Unit(prec);
      && Shares(prec, units, ws)[i] == x / Unit(prec) + (if bumped then 1 else 0)
      && if bumped then 2000 * f >= Unit(prec) else 2000 * (Unit(prec) - f) >= Unit(prec)
  {
    var raw, remaining := RawUnits(prec, units, ws), Remaining(prec, units, ws);
    var order := Order(prec, raw);
    OrderIsVisit(prec, raw);
    RemainingRange(prec, units, ws);
    FractionSum(prec, units, ws);
    bumped := i in order[..remaining];
    assert Prefix(order, remaining) == order[..remaining];
    PositionGap(order, Fractions(prec, raw), i, remaining, Unit(prec));
  }

  lemma ShareWithinOne(x: int, base: int, f: int, bumped: bool, share: int, a: int, total: nat, d: nat)
    requires total > 0 && d > 0 && x == d * base + f && 0 <= f < d
    requires 2000 * Abs(x * total - a * d) < total * d
    requires share == base + if bumped then 1 else 0
    requires if bumped then 2000 * f >= d else 2000 * (d - f) >= d
    ensures Abs(share * total - a) < total
  {
    Products(base, f, total, d);
    if bumped {
      LeMul(d, 2000 * f, total);
      LeMul(f, d, total);
      CancelLt(base * total, a, d);
      CancelLt(a, base * total + 2 * total, d);
      NextProduct(base, total);
    } else {
      LeMul(d, 2000 * (d - f), total);
      LeMul(0, f, total);
      CancelLt(a, base * total + total, d);
      CancelLt(base * total - total, a, d);
    }
  }

  lemma Products(base: int, f: int, total: int, d: int)
    ensures (d * base + f) * total == base * total * d + f * total
    ensures (base * total + 2 * total) * d == base * total * d + 2 * (total * d)
    ensures (base * total + total) * d == base * total * d + total * d
    ensures (base * total - total) * d == base * total * d - total * d
    ensures 2000 * (d - f) * total == 2000 * (total * d) - 2000 * (f * total)
    ensures 2000 * f * total == 2000 * (f * total) && d * total == total * d
  {
  }

  // ---- the same in whole units ----

  lemma WithinOne(a: nat, total: nat, s: int)
    requires total > 0 && Abs(s * total - a) < total
    ensures s == a / total || (s == a / total + 1 && a % total > 0)
  {
    DivMod(a, total);
    NextProduct(a / total, total);
    NextProduct(a / total + 1, total);
    CancelLt(a / total - 1, s, total) by { assert (a / total - 1) * total == total * (a / total) - total; }
    CancelLt(s, a / total + 2, total);
  }

  /** For every total and every specification: each share is the floor of its exact quota, or
      one more and then the quota is not whole. */
  lemma FloorOrCeiling(prec: Precision, units: nat, ws: seq<Weight>, i: nat)
    requires ValidSpec(ws) && units < LIMIT && i < |ws|
    ensures var s, a, total := Shares(prec, units, ws)[i], units * ws[i].weight, Sum(Weights(ws));
      s == a / total || (s == a / total + 1 && a % total > 0)
  {
    QuotaRule(prec, units, ws, i);
    ProductIsNatural(units, ws[i].weight);
    WithinOne(units * ws[i].weight, Sum(Weights(ws)), Shares(prec, units, ws)[i]);
  }

  /** So a quota that is a whole number of units is granted exactly, zero included. */
  lemma WholeQuotaExact(prec: Precision, units: nat, ws: seq<Weight>, i: nat)
    requires ValidSpec(ws) && units < LIMIT && i < |ws| && units * ws[i].weight % Sum(Weights(ws)) == 0
    ensures Shares(prec, units, ws)[i] * Sum(Weights(ws)) == units * ws[i].weight
  {
    FloorOrCeiling(prec, units, ws, i);
    DivMod(units * ws[i].weight, Sum(Weights(ws)));
  }
}
