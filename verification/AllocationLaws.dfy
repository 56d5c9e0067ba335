/** What the allocation promises: conservation and fairness for every input, the
    largest-remainder rule and its optimality. */
module AllocationLaws {
  import opened Decimals
  import opened Rounding
  import opened Sorting
  import opened Allocation
  import opened AllocationPrecision

  // ---- handing out the leftover units ----

  lemma {:induction false} BumpedSum(base: seq<int>, order: seq<nat>, k: nat)
    requires Visits(order, |base|) && k <= |base|
    ensures Sum(Bumped(base, order[..k])) == Sum(base) + k
  {
    if k == 0 {
      assert Bumped(base, order[..0]) == base;
    } else {
      BumpedSum(base, order, k - 1);
      BumpedStep(base, order, k - 1);
      var before := Bumped(base, order[..k - 1]);
      SumUpdate(before, order[k - 1], before[order[k - 1]] + 1);
    }
  }

  /** One iteration of `base_units[index] += 1`. */
  lemma BumpedStep(base: seq<int>, order: seq<nat>, k: nat)
    requires Visits(order, |base|) && k < |base|
    ensures var before := Bumped(base, order[..k]);
      Bumped(base, order[..k + 1]) == before[order[k] := before[order[k]] + 1]
  {
    assert order[..k + 1] == order[..k] + [order[k]];
    assert order[k] !in order[..k];
  }

  lemma BeforeIsPreorder(prec: Precision, raw: seq<int>)
    ensures TotalPreorder((i: nat, j: nat) => Before(prec, raw, i, j))
  {
  }

  lemma OrderIsVisit(prec: Precision, raw: seq<int>)
    ensures Visits(Order(prec, raw), |raw|)
    ensures forall k, l :: 0 <= k < l < |raw| ==>
      raw[Order(prec, raw)[k]] % Unit(prec) >= raw[Order(prec, raw)[l]] % Unit(prec)
  {
    BeforeIsPreorder(prec, raw);
    var leq := (i: nat, j: nat) => Before(prec, raw, i, j);
    OrderVisits(leq, |raw|);
    var order := Order(prec, raw);
    forall k, l | 0 <= k < l < |raw| ensures raw[order[k]] % Unit(prec) >= raw[order[l]] % Unit(prec) {
      assert leq(order[k], order[l]);
    }
  }

  // ---- conservation, for every total and every specification ----

  /** Shares of any unit count in the schema add up to it and are not negative. */
  lemma SharesConserve(prec: Precision, units: nat, ws: seq<Weight>)
    requires ValidSpec(ws) && units < LIMIT
    ensures Sum(Shares(prec, units, ws)) == units
    ensures forall i :: 0 <= i < |ws| ==> 0 <= Shares(prec, units, ws)[i] <= units
  {
    var raw := RawUnits(prec, units, ws);
    OrderIsVisit(prec, raw);
    RemainingRange(prec, units, ws);
    BumpedSum(Floors(prec, raw), Order(prec, raw), Remaining(prec, units, ws));
    assert Prefix(Order(prec, raw), Remaining(prec, units, ws))
        == Order(prec, raw)[..Remaining(prec, units, ws)];
    forall i | 0 <= i < |ws| ensures Shares(prec, units, ws)[i] >= 0 {
      FloorMultiple(raw[i], Unit(prec));
    }
    SumNonNegative(Shares(prec, units, ws));
  }

  lemma UnitCountExact(total: int, scale: nat)
    requires scale <= 18 && total % Quantum(scale) == 0 && Fits(total)
    ensures UnitCount(total, scale) < LIMIT
    ensures Sign(total) * Quantum(scale) * UnitCount(total, scale) == total
  {
    WholeCount(total, Quantum(scale));
    Signed(total, Quantum(scale), UnitCount(total, scale));
  }

  lemma WholeCount(total: int, q: nat)
    requires q > 0 && total % q == 0
    ensures Abs(total) == Abs(total) / q * q && Abs(total) / q >= 0
  {
    NegativeMultiple(total, q);
    FloorMultiple(Abs(total), q);
  }

  lemma Signed(total: int, q: nat, n: nat)
    requires q > 0 && Abs(total) == n * q
    ensures n <= Abs(total) && Sign(total) * q * n == total
  {
    LeMul(1, q, n);
    assert Sign(total) * q * n == Sign(total) * (n * q);
  }

  /** Whatever is returned adds up to the total exactly; every amount has the sign of the
      total, fits the schema and stays on the grid; and only an off-grid total or a wrong
      scale is refused. */
  lemma AllocationConserves(prec: Precision, total: int, ws: seq<Weight>, scale: nat)
    requires ValidSpec(ws) && Fits(total)
    ensures AllocationOf(prec, total, ws, scale).Ok? <==> scale <= 18 && total % Quantum(scale) == 0
    ensures AllocationOf(prec, total, ws, scale).Ok? ==>
      var s := AllocationOf(prec, total, ws, scale).value;
      && |s| == |ws| && Sum(s) == total
      && forall i :: 0 <= i < |s| ==>
           Fits(s[i]) && s[i] % Quantum(scale) == 0 && if total < 0 then s[i] <= 0 else s[i] >= 0
  {
    if scale <= 18 && total % Quantum(scale) == 0 {
      var units, sign := UnitCount(total, scale), Sign(total);
      UnitCountExact(total, scale);
      SharesConserve(prec, units, ws);
      var shares := Shares(prec, units, ws);
      SumScaled(shares, Scaled(shares, sign * Quantum(scale)), sign * Quantum(scale));
      forall i | 0 <= i < |ws| ensures var x := Scaled(shares, sign * Quantum(scale))[i];
        Fits(x) && x % Quantum(scale) == 0 && if total < 0 then x <= 0 else x >= 0
      {
        ShareAmount(shares[i], units, Quantum(scale), sign, total);
      }
    }
  }

  lemma ShareAmount(share: int, units: nat, q: nat, sign: int, total: int)
    requires q > 0 && 0 <= share <= units && sign * q * units == total
    requires sign == Sign(total)
    ensures var x := sign * q * share;
      Abs(x) <= Abs(total) && x % q == 0 && if total < 0 then x <= 0 else x >= 0
  {
    LeMul(share, units, q);
    LeMul(0, share, q);
    assert sign * q * share == (sign * share) * q && sign * q * units == (sign * units) * q;
    MultipleMod(sign * share, q);
    AbsMul(sign * share, q);
    AbsMul(sign * units, q);
  }

  /** Negating the total negates every amount. */
  lemma AllocationNegates(prec: Precision, total: int, ws: seq<Weight>, scale: nat)
    requires ValidSpec(ws) && AllocationOf(prec, total, ws, scale).Ok?
    ensures AllocationOf(prec, -total, ws, scale)
         == Ok(Scaled(AllocationOf(prec, total, ws, scale).value, -1))
  {
    var units, q := UnitCount(total, scale), Quantum(scale);
    NegativeMultiple(total, q);
    assert UnitCount(-total, scale) == units;
    NegatedShares(Shares(prec, units, ws), total, q) by {
      if total == 0 {
        DivModUnique(0, q, 0, 0);
        ZeroShares(prec, ws);
      }
    }
  }

  lemma NegatedShares(shares: seq<int>, total: int, q: nat)
    requires total == 0 ==> forall i :: 0 <= i < |shares| ==> shares[i] == 0
    ensures Scaled(shares, Sign(-total) * q) == Scaled(Scaled(shares, Sign(total) * q), -1)
  {
    if total == 0 {
      forall i | 0 <= i < |shares| ensures q * shares[i] == -1 * (q * shares[i]) { }
    } else {
      assert Sign(-total) * q == -(Sign(total) * q);
      NegatedScaled(shares, Sign(total) * q);
    }
  }

  lemma NegatedScaled(s: seq<int>, k: int)
    ensures Scaled(s, -k) == Scaled(Scaled(s, k), -1)
  {
    forall i | 0 <= i < |s| ensures -k * s[i] == -1 * (k * s[i]) { }
  }

  lemma ZeroShares(prec: Precision, ws: seq<Weight>)
    requires ValidSpec(ws)
    ensures forall i :: 0 <= i < |ws| ==> Shares(prec, 0, ws)[i] == 0
  {
    SharesConserve(prec, 0, ws);
  }

  // ---- the largest-remainder rule itself ----

  /** `s` splits `units` by largest remainders: every share is the floor of its exact quota
      or one more, and the ones that got more have remainders at or above a cut that no
      other remainder exceeds.  Ties may be broken in any way. */
  ghost predicate LargestRemainder(units: nat, w: seq<nat>, total: nat, s: seq<int>, cut: nat) {
    && |s| == |w| && total > 0 && Sum(s) == units && Sum(w) == total && cut <= total
    && forall i :: 0 <= i < |w| ==>
         || (s[i] == units * w[i] / total && units * w[i] % total <= cut)
         || (s[i] == units * w[i] / total + 1 && units * w[i] % total >= cut)
  }

  lemma ProductBelow(units: nat, w: nat, total: nat, h: nat)
    requires w <= total && units * total < h
    ensures 0 <= units * w < h
  {
    LeMul(w, total, units);
    ProductIsNatural(units, w);
  }

  lemma FloorsExact(prec: Precision, units: nat, ws: seq<Weight>, i: nat)
    requires ValidSpec(ws) && i < |ws| && units * Sum(Weights(ws)) < Pow10(prec - 2)
    ensures RawUnits(prec, units, ws)[i] / Unit(prec) == units * ws[i].weight / Sum(Weights(ws))
  {
    TotalWeight(prec, ws);
    ProductBelow(units, ws[i].weight, Sum(Weights(ws)), Pow10(prec - 2));
    RawExact(prec, units * ws[i].weight, Sum(Weights(ws)));
  }

  /** And fewer units are left over than there are weights. */
  lemma RemainingBelow(prec: Precision, units: nat, ws: seq<Weight>)
    requires ValidSpec(ws) && units < LIMIT && units * Sum(Weights(ws)) < Pow10(prec - 2)
    ensures 0 <= Remaining(prec, units, ws) <= |ws| - 1
  {
    var w, total, n := Weights(ws), Sum(Weights(ws)), Remaining(prec, units, ws);
    var floors, rem := Floors(prec, RawUnits(prec, units, ws)), Remainders(units, ws);
    var a, whole := Scaled(w, units), Scaled(floors, total);
    RemainingRange(prec, units, ws);
    forall i | 0 <= i < |ws| ensures a[i] == whole[i] + rem[i] {
      FloorsExact(prec, units, ws, i);
      DivMod(a[i], total);
    }
    SumAdd(whole, rem, a);
    ScaledSum(w, units);
    ScaledSum(floors, total);
    SumBound(rem, total - 1);
    BelowCount(total, units, Sum(floors), Sum(rem), |ws|);
  }

  lemma BelowCount(total: nat, units: nat, floors: int, rem: int, n: nat)
    requires total > 0 && n > 0 && units * total == total * floors + rem && rem <= n * (total - 1)
    ensures units - floors <= n - 1
  {
    assert (units - floors) * total == rem;
    assert n * (total - 1) == n * total - n;
    CancelLt(units - floors, n, total);
  }

  function Remainder(units: nat, ws: seq<Weight>, i: nat): (r: nat)
    requires i < |ws| && Sum(Weights(ws)) > 0
    ensures r < Sum(Weights(ws))
  {
    units * ws[i].weight % Sum(Weights(ws))
  }

  function Remainders(units: nat, ws: seq<Weight>): (s: seq<nat>)
    requires Sum(Weights(ws)) > 0
    ensures |s| == |ws|
  {
    seq(|ws|, i requires 0 <= i < |ws| => Remainder(units, ws, i))
  }

  /** The positions that get a unit have remainders at or above all the others. */
  lemma CutOf(order: seq<nat>, rem: seq<nat>, n: nat, total: nat) returns (cut: nat)
    requires Visits(order, |rem|) && n <= |rem| && forall i :: 0 <= i < |rem| ==> rem[i] <= total
    requires forall k, l :: 0 <= k < l < |rem| ==> rem[order[k]] >= rem[order[l]]
    ensures cut <= total
    ensures forall i :: 0 <= i < |rem| ==> if i in order[..n] then rem[i] >= cut else rem[i] <= cut
  {
    cut := if n == 0 then total else rem[order[n - 1]];
    forall i | 0 <= i < |rem| ensures if i in order[..n] then rem[i] >= cut else rem[i] <= cut {
      assert i in order;
      var k :| 0 <= k < |order| && order[k] == i;
      if k < n { assert order[..n][k] == i; }
    }
  }

  lemma RemainderCut(prec: Precision, units: nat, ws: seq<Weight>, n: nat) returns (cut: nat)
    requires ValidSpec(ws) && units * Sum(Weights(ws)) < Pow10(prec - 2)
    requires n <= |ws| == |Order(prec, RawUnits(prec, units, ws))|
    ensures cut <= Sum(Weights(ws))
    ensures var chosen := Order(prec, RawUnits(prec, units, ws))[..n];
      forall i :: 0 <= i < |ws| ==>
        if i in chosen then Remainders(units, ws)[i] >= cut else Remainders(units, ws)[i] <= cut
  {
    var order, rem := Order(prec, RawUnits(prec, units, ws)), Remainders(units, ws);
    OrderIsVisit(prec, RawUnits(prec, units, ws));
    forall k, l | 0 <= k < l < |rem| ensures rem[order[k]] >= rem[order[l]] {
      FractionsFollow(prec, units, ws, order[l], order[k]);
    }
    cut := CutOf(order, rem, n, Sum(Weights(ws)));
  }

  /** While unit count times total weight stays below 10^98, the 100-digit computation is the
      exact largest-remainder split. */
  lemma SharesAreLargestRemainder(prec: Precision, units: nat, ws: seq<Weight>) returns (cut: nat)
    requires ValidSpec(ws) && units < LIMIT
    requires units * Sum(Weights(ws)) < Pow10(prec - 2)
    ensures LargestRemainder(units, Weights(ws), Sum(Weights(ws)), Shares(prec, units, ws), cut)
  {
    var raw, n := RawUnits(prec, units, ws), Remaining(prec, units, ws);
    SharesConserve(prec, units, ws);
    OrderIsVisit(prec, raw);
    RemainingRange(prec, units, ws);
    cut := RemainderCut(prec, units, ws, n);
    assert Prefix(Order(prec, raw), n) == Order(prec, raw)[..n];
    forall i | 0 <= i < |ws|
      ensures var x, a, total := Shares(prec, units, ws)[i], units * ws[i].weight, Sum(Weights(ws));
        (x == a / total && a % total <= cut) || (x == a / total + 1 && a % total >= cut)
    {
      FloorsExact(prec, units, ws, i);
      assert if i in Order(prec, raw)[..n] then Remainders(units, ws)[i] >= cut
             else Remainders(units, ws)[i] <= cut;
    }
  }

  lemma FractionsFollow(prec: Precision, units: nat, ws: seq<Weight>, i: nat, j: nat)
    requires ValidSpec(ws) && i < |ws| && j < |ws|
    requires units * Sum(Weights(ws)) < Pow10(prec - 2)
    ensures Remainder(units, ws, i) > Remainder(units, ws, j) ==>
      RawUnits(prec, units, ws)[i] % Unit(prec) > RawUnits(prec, units, ws)[j] % Unit(prec)
  {
    var total := Sum(Weights(ws));
    TotalWeight(prec, ws);
    ProductBelow(units, ws[i].weight, total, Pow10(prec - 2));
    ProductBelow(units, ws[j].weight, total, Pow10(prec - 2));
    if Remainder(units, ws, i) > Remainder(units, ws, j) {
      FractionOrder(prec, units * ws[i].weight, units * ws[j].weight, total);
    }
  }

  lemma ScaledSum(s: seq<int>, k: int)
    ensures Sum(Scaled(s, k)) == k * Sum(s)
  {
    SumScaled(s, Scaled(s, k), k);
  }

  // ---- fairness, for every total and every specification ----

  /** Weights of the schema are far enough apart for their computed quotas to differ. */
  lemma WeightsApart(f: nat, x: nat, y: nat)
    requires x > y && 6000 * y < 2 * f && f >= 2
    ensures (2 * f + 3) * y < (2 * f - 3) * x
  {
    LeMul(y + 1, x, 2 * f - 3);
    assert (2 * f - 3) * (y + 1) == 2 * f * y - 3 * y + 2 * f - 3;
    assert (2 * f + 3) * y == 2 * f * y + 3 * y;
  }

  lemma QuotientsApart(x: int, y: int, a: nat, b: nat, f: nat, c: nat, t: nat)
    requires f >= 2 && c > 0 && t > 0 && (2 * f + 3) * b < (2 * f - 3) * a
    requires ((2 * f - 3) * c) * a <= t * x && t * y <= ((2 * f + 3) * c) * b
    ensures x > y
  {
    LtMul((2 * f + 3) * b, (2 * f - 3) * a, c);
    assert ((2 * f - 3) * c) * a == (2 * f - 3) * a * c && ((2 * f + 3) * c) * b == (2 * f + 3) * b * c;
    CancelLt(y, x, t);
  }

  lemma BoundsApart(raw: seq<int>, s: seq<int>, units: nat, d: nat, f: nat, i: nat, j: nat)
    requires Bounded(raw, s, units, d, f) && i < |s| && j < |s| && s[i] > s[j] >= 0
    requires Sum(s) > 0 && units > 0 && d > 0 && f >= 2 && 6000 * s[j] < 2 * f
    ensures raw[i] > raw[j]
  {
    var x, y := s[i], s[j];
    WeightsApart(f, x, y);
    LeMul(1, units, d);
    LeMul(1, Sum(s), 2 * f);
    Regroup3(2 * f - 3, units, d);
    Regroup3(2 * f + 3, units, d);
    assert (2 * f - 3) * d * units == (2 * f - 3) * (d * units);
    assert (2 * f + 3) * d * units == (2 * f + 3) * (d * units);
    QuotientsApart(raw[i], raw[j], x, y, f, d * units, 2 * f * Sum(s));
  }

  /** A strictly larger weight has a strictly larger computed quota. */
  lemma LargerWeightLargerQuota(prec: Precision, units: nat, ws: seq<Weight>, i: nat, j: nat)
    requires ValidSpec(ws) && 0 < units < LIMIT && i < |ws| && j < |ws| && ws[i].weight > ws[j].weight
    ensures RawUnits(prec, units, ws)[i] > RawUnits(prec, units, ws)[j]
  {
    AllRawBounds(prec, units, ws);
    assert ws[j] in ws;
    FineExceeds(prec, ws[j].weight);
    FineExceeds(prec, 1);
    BoundsApart(RawUnits(prec, units, ws), Weights(ws), units, Unit(prec), Fine(prec), i, j);
  }

  /** The order by fraction never turns larger quotas into smaller shares. */
  lemma QuotasOrderShares(prec: Precision, units: nat, ws: seq<Weight>, i: nat, j: nat)
    requires ValidSpec(ws) && units < LIMIT && i < |ws| && j < |ws|
    requires RawUnits(prec, units, ws)[i] > RawUnits(prec, units, ws)[j]
    ensures Shares(prec, units, ws)[i] >= Shares(prec, units, ws)[j]
  {
    var raw, n := RawUnits(prec, units, ws), Remaining(prec, units, ws);
    var order := Order(prec, raw);
    OrderIsVisit(prec, raw);
    RemainingRange(prec, units, ws);
    FloorsOrdered(raw[j], raw[i], Unit(prec));
    assert Prefix(order, n) == order[..n];
    if raw[i] / Unit(prec) == raw[j] / Unit(prec) && j in order[..n] {
      var k :| 0 <= k < n && order[..n][k] == j;
      assert i in order;
      var l :| 0 <= l < |order| && order[l] == i;
      assert l < k;
      assert order[..n][l] == i;
    }
  }

  /** For every unit count and every specification: a strictly larger weight never gets a
      smaller share. */
  lemma LargerWeightLargerShare(prec: Precision, units: nat, ws: seq<Weight>, i: nat, j: nat)
    requires ValidSpec(ws) && units < LIMIT && i < |ws| && j < |ws| && ws[i].weight > ws[j].weight
    ensures Shares(prec, units, ws)[i] >= Shares(prec, units, ws)[j]
  {
    if units == 0 {
      ZeroShares(prec, ws);
    } else {
      LargerWeightLargerQuota(prec, units, ws, i, j);
      QuotasOrderShares(prec, units, ws, i, j);
    }
  }

  lemma FloorsOrdered(a: int, b: int, total: nat)
    requires total > 0 && a < b
    ensures a / total < b / total || (a / total == b / total && a % total < b % total)
  {
    DivMod(a, total);
    DivMod(b, total);
    NextProduct(b / total, total);
    if a / total > b / total { LeMul(b / total + 1, a / total, total); }
  }

  // ---- optimality ----

  /** Distances of the shares from the quotas a[i] / total, in fractions with that denominator. */
  function Distances(a: seq<int>, total: nat, s: seq<int>): (d: seq<int>)
    requires |s| == |a|
    ensures |d| == |a|
  {
    seq(|a|, i requires 0 <= i < |a| => Abs(s[i] * total - a[i]))
  }

  /** The total deviation of a split from the exact proportional quotas. */
  function Deviation(units: nat, w: seq<int>, total: nat, s: seq<int>): int
    requires |s| == |w|
  {
    Sum(Distances(Scaled(w, units), total, s))
  }

  /** The price of moving one share by `t - s`: at least the slope total - 2*cut. */
  lemma SharePrice(a: int, total: nat, cut: nat, s: int, t: int)
    requires total > 0 && cut <= total
    requires (s == a / total && a % total <= cut) || (s == a / total + 1 && a % total >= cut)
    ensures Abs(t * total - a) >= Abs(s * total - a) + (total - 2 * cut) * (t - s)
  {
    var d, x := t - s, s * total - a;
    DivMod(a, total);
    NextProduct(a / total, total);
    ShareProducts(a, total, cut, s, t);
    if d >= 1 {
      MoveUp(d, total, cut);
    } else if d <= -1 {
      MoveDown(d, total, cut);
    }
    Moved(x, d, d * total, d * cut, total, cut);
  }

  lemma ShareProducts(a: int, total: nat, cut: nat, s: int, t: int)
    ensures t * total - a == (s * total - a) + (t - s) * total
    ensures (total - 2 * cut) * (t - s) == (t - s) * total - 2 * ((t - s) * cut)
  {
  }

  /** The comparison once every product has a name. */
  lemma Moved(x: int, d: int, dt: int, dc: int, total: nat, cut: nat)
    requires 0 - cut <= x <= 0 || 0 <= x <= total - cut
    requires cut <= total
    requires d == 0 ==> dt == 0 && dc == 0
    requires d >= 1 ==> dt >= total && dc >= cut && dc <= dt
    requires d <= -1 ==> dt <= 0 - total && dc <= 0 - cut && -dc - cut <= -dt - total
    ensures Abs(x + dt) >= Abs(x) + (dt - 2 * dc)
  {
  }

  lemma MoveUp(d: int, total: nat, cut: nat)
    requires d >= 1 && cut <= total
    ensures d * total >= total && d * cut >= cut && d * cut <= d * total
  {
    LeMul(1, d, cut);
    LeMul(1, d, total);
    LeMul(cut, total, d);
  }

  lemma MoveDown(d: int, total: nat, cut: nat)
    requires d <= -1 && cut <= total
    ensures d * total <= 0 - total && d * cut <= 0 - cut
    ensures -(d * cut) - cut <= -(d * total) - total
  {
    LeMul(d, -1, cut);
    LeMul(d, -1, total);
    LeMul(cut, total, -d - 1);
    assert cut * (-d - 1) == -(d * cut) - cut && total * (-d - 1) == -(d * total) - total;
  }

  /** Every share is the floor of its quota or one more, and a cut separates the remainders. */
  ghost predicate Cuts(a: seq<int>, total: nat, s: seq<int>, cut: nat) {
    && |s| == |a| && total > 0 && cut <= total
    && forall i :: 0 <= i < |a| ==>
         || (s[i] == a[i] / total && a[i] % total <= cut)
         || (s[i] == a[i] / total + 1 && a[i] % total >= cut)
  }

  function Changes(s: seq<int>, t: seq<int>): (c: seq<int>)
    requires |s| == |t|
    ensures |c| == |s|
  {
    seq(|s|, i requires 0 <= i < |s| => t[i] - s[i])
  }

  function Moves(s: seq<int>, t: seq<int>, slope: int): (m: seq<int>)
    requires |s| == |t|
    ensures |m| == |s|
  {
    Scaled(Changes(s, t), slope)
  }

  lemma MoveCosts(a: seq<int>, total: nat, s: seq<int>, cut: nat, t: seq<int>, i: nat)
    requires Cuts(a, total, s, cut) && |t| == |a| && i < |a|
    ensures Distances(a, total, s)[i] + Moves(s, t, total - 2 * cut)[i] <= Distances(a, total, t)[i]
  {
    SharePrice(a[i], total, cut, s[i], t[i]);
  }

  /** Moves between two splits of the same sum cost nothing at a common slope. */
  lemma MovesCancel(s: seq<int>, t: seq<int>, slope: int)
    requires |s| == |t| && Sum(s) == Sum(t)
    ensures Sum(Moves(s, t, slope)) == 0
  {
    SumAdd(s, Changes(s, t), t);
    ScaledSum(Changes(s, t), slope);
  }

  ghost predicate Covered(d: seq<int>, m: seq<int>, e: seq<int>) {
    |d| == |m| == |e| && forall i :: 0 <= i < |d| ==> d[i] + m[i] <= e[i]
  }

  lemma AllMovesCost(a: seq<int>, total: nat, s: seq<int>, cut: nat, t: seq<int>)
    requires Cuts(a, total, s, cut) && |t| == |a|
    ensures Covered(Distances(a, total, s), Moves(s, t, total - 2 * cut), Distances(a, total, t))
  {
    var slope := total - 2 * cut;
    forall i | 0 <= i < |a| ensures Distances(a, total, s)[i] + Moves(s, t, slope)[i] <= Distances(a, total, t)[i] {
      MoveCosts(a, total, s, cut, t, i);
    }
  }

  lemma {:induction false} SumOfMoves(d: seq<int>, m: seq<int>, e: seq<int>)
    requires Covered(d, m, e)
    ensures Sum(d) + Sum(m) <= Sum(e)
  {
    if d != [] { SumOfMoves(d[1..], m[1..], e[1..]); }
  }

  /** A split with a cut has the least total distance among all splits with the same sum. */
  lemma CutIsOptimal(a: seq<int>, total: nat, s: seq<int>, cut: nat, t: seq<int>)
    requires Cuts(a, total, s, cut) && |t| == |a| && Sum(t) == Sum(s)
    ensures Sum(Distances(a, total, s)) <= Sum(Distances(a, total, t))
  {
    AllMovesCost(a, total, s, cut, t);
    SumOfMoves(Distances(a, total, s), Moves(s, t, total - 2 * cut), Distances(a, total, t));
    MovesCancel(s, t, total - 2 * cut);
  }

  /** Optimality: among all integer splits of the same units, a largest-remainder split has
      the least total deviation from the exact proportional quotas. */
  lemma LargestRemainderOptimal(units: nat, w: seq<nat>, total: nat, s: seq<int>, cut: nat, t: seq<int>)
    requires LargestRemainder(units, w, total, s, cut) && |t| == |w| && Sum(t) == units
    ensures Deviation(units, w, total, s) <= Deviation(units, w, total, t)
  {
    assert Cuts(Scaled(w, units), total, s, cut);
    CutIsOptimal(Scaled(w, units), total, s, cut, t);
  }

  // ---- canonical specifications ----

  lemma {:induction false} WeightsMultiset(ws: seq<Weight>, vs: seq<Weight>)
    requires multiset(ws) == multiset(vs)
    ensures Sum(Weights(ws)) == Sum(Weights(vs)) && |ws| == |vs|
    decreases |ws|
  {
    assert |ws| == |multiset(ws)| == |multiset(vs)| == |vs|;
    if ws != [] {
      var x := ws[0];
      assert x in multiset(vs);
      var k :| 0 <= k < |vs| && vs[k] == x;
      var rest := vs[..k] + vs[k + 1..];
      SameRest(ws, vs, k);
      WeightsMultiset(ws[1..], rest);
      assert Weights(ws)[1..] == Weights(ws[1..]);
      WithoutOne(vs, k);
    }
  }

  lemma SameRest(ws: seq<Weight>, vs: seq<Weight>, k: nat)
    requires multiset(ws) == multiset(vs) && ws != [] && k < |vs| && vs[k] == ws[0]
    ensures multiset(ws[1..]) == multiset(vs[..k] + vs[k + 1..])
  {
    assert ws == [ws[0]] + ws[1..] && vs == vs[..k] + [ws[0]] + vs[k + 1..];
    assert multiset(ws[1..]) == multiset(ws) - multiset{ws[0]};
  }

  lemma WithoutOne(vs: seq<Weight>, k: nat)
    requires k < |vs|
    ensures Sum(Weights(vs)) == Sum(Weights(vs[..k] + vs[k + 1..])) + vs[k].weight
  {
    var a, x, b := Weights(vs[..k]), vs[k].weight as int, Weights(vs[k + 1..]);
    assert Weights(vs) == (a + [x]) + b;
    assert Weights(vs[..k] + vs[k + 1..]) == a + b;
    SumConcat(a, b);
    SumConcat(a + [x], b);
    SumAppend(a, x);
  }

  lemma {:induction false} SumConcat(s: seq<int>, t: seq<int>)
    ensures Sum(s + t) == Sum(s) + Sum(t)
  {
    if s == [] {
      assert s + t == t;
    } else {
      assert (s + t)[1..] == s[1..] + t;
      SumConcat(s[1..], t);
    }
  }

  /** A constructed specification is valid and holds exactly the given weights. */
  lemma MadeSpecIsValid(ws: seq<Weight>)
    requires MakeSpec(ws).Ok?
    ensures ValidSpec(MakeSpec(ws).value) && multiset(MakeSpec(ws).value) == multiset(ws)
  {
    var v := MakeSpec(ws).value;
    SortIsSorted(ByKey, ws);
    WeightsMultiset(v, ws);
    forall w | w in v ensures Fits(w.weight) {
      assert w in multiset(v);
      assert w in ws;
    }
    forall i, j | 0 <= i < j < |v| ensures v[i].key < v[j].key {
      assert ByKey(v[i], v[j]);
      DistinctKeys(ws, v, i, j);
    }
  }

  /** And every valid specification is constructed from its weights in any order. */
  lemma ValidSpecIsMade(ws: seq<Weight>, v: seq<Weight>)
    requires ValidSpec(v) && multiset(ws) == multiset(v)
    ensures MakeSpec(ws) == Ok(v)
  {
    assert |ws| == |multiset(ws)| == |v|;
    WeightsMultiset(ws, v);
    UniqueKeysMultiset(v, ws);
    forall w | w in ws ensures Fits(w.weight) { assert w in multiset(v); }
    SortIsSorted(ByKey, ws);
    SortedUnique(ByKey, v, Sort(ByKey, ws));
  }

  lemma DistinctKeys(ws: seq<Weight>, v: seq<Weight>, i: nat, j: nat)
    requires UniqueKeys(ws) && multiset(v) == multiset(ws) && i < j < |v|
    ensures v[i].key != v[j].key
  {
    if v[i].key == v[j].key {
      assert v[i] in multiset(ws) && v[j] in multiset(ws);
      var a :| 0 <= a < |ws| && ws[a] == v[i];
      var b :| 0 <= b < |ws| && ws[b] == v[j];
      assert a == b;
      assert v == v[..i] + [v[i]] + v[i + 1..j] + [v[j]] + v[j + 1..];
      assert multiset(v)[v[i]] >= 2;
      KeyOnce(ws, a);
      assert false;
    }
  }

  lemma KeyOnce(ws: seq<Weight>, a: nat)
    requires UniqueKeys(ws) && a < |ws|
    ensures multiset(ws)[ws[a]] == 1
  {
    assert ws == ws[..a] + [ws[a]] + ws[a + 1..];
    assert ws[a] !in ws[..a] && ws[a] !in ws[a + 1..];
  }

  /** The order in which the caller lists the weights cannot affect the outcome: the
      constructors agree on any rearrangement, errors included. */
  lemma CallerOrderIsIrrelevant(ws: seq<Weight>, vs: seq<Weight>)
    requires multiset(ws) == multiset(vs)
    ensures MakeSpec(ws) == MakeSpec(vs)
  {
    WeightsMultiset(ws, vs);
    assert forall w :: w in ws <==> w in multiset(ws);
    assert forall w :: w in vs <==> w in multiset(vs);
    if UniqueKeys(vs) { UniqueKeysMultiset(vs, ws); }
    if UniqueKeys(ws) {
      UniqueKeysMultiset(ws, vs);
      forall x, y | x in ws && y in ws && ByKey(x, y) && ByKey(y, x) ensures x == y {
        var a :| 0 <= a < |ws| && ws[a] == x;
        var b :| 0 <= b < |ws| && ws[b] == y;
      }
      SortCanonical(ByKey, ws, vs);
    }
  }

  lemma UniqueKeysMultiset(ws: seq<Weight>, vs: seq<Weight>)
    requires multiset(ws) == multiset(vs) && UniqueKeys(ws)
    ensures UniqueKeys(vs)
  {
    forall i, j | 0 <= i < j < |vs| ensures vs[i].key != vs[j].key { DistinctKeys(ws, vs, i, j); }
  }
}
