/** How good the computed split is: as good as any while the context is wide enough, never
    noticeably worse, and exactly when it is not the best. */
module AllocationOptimality {
  import opened Decimals
  import opened Rounding
  import opened Sorting
  import opened Allocation
  import opened AllocationPrecision
  import opened AllocationLaws
  import opened AllocationQuota

  // ---- the shares are the best split of the computed quotas ----

  lemma FractionCut(prec: Precision, units: nat, ws: seq<Weight>) returns (cut: nat)
    requires ValidSpec(ws) && units < LIMIT
    ensures Cuts(RawUnits(prec, units, ws), Unit(prec), Shares(prec, units, ws), cut)
  {
    var raw, n := RawUnits(prec, units, ws), Remaining(prec, units, ws);
    OrderIsVisit(prec, raw);
    RemainingRange(prec, units, ws);
    var order, fractions := Order(prec, raw), Fractions(prec, raw);
    forall i | 0 <= i < |raw| ensures 0 <= fractions[i] <= Unit(prec) { DivMod(raw[i], Unit(prec)); }
    cut := CutOf(order, fractions, n, Unit(prec));
    assert Prefix(order, n) == order[..n];
    forall i | 0 <= i < |raw|
      ensures var x, s := raw[i], Shares(prec, units, ws)[i];
        (s == x / Unit(prec) && x % Unit(prec) <= cut) || (s == x / Unit(prec) + 1 && x % Unit(prec) >= cut)
    {
      assert if i in order[..n] then fractions[i] >= cut else fractions[i] <= cut;
    }
  }

  lemma ComputedIsOptimal(prec: Precision, units: nat, ws: seq<Weight>, t: seq<int>)
    requires ValidSpec(ws) && units < LIMIT && |t| == |ws| && Sum(t) == units
    ensures Sum(Distances(RawUnits(prec, units, ws), Unit(prec), Shares(prec, units, ws)))
         <= Sum(Distances(RawUnits(prec, units, ws), Unit(prec), t))
  {
    var cut := FractionCut(prec, units, ws);
    SharesConserve(prec, units, ws);
    CutIsOptimal(RawUnits(prec, units, ws), Unit(prec), Shares(prec, units, ws), cut, t);
  }

  // ---- from computed to exact quotas ----

  /** Errors of the computed quotas, over the common denominator of both. */
  function Errors(raw: seq<int>, a: seq<int>, total: nat, d: nat): (e: seq<int>)
    requires |raw| == |a|
    ensures |e| == |a|
  {
    seq(|a|, i requires 0 <= i < |a| => Abs(raw[i] * total - a[i] * d))
  }

  /** The distance of one share from its exact and from its computed quota. */
  lemma DistancesClose(s: int, x: int, a: int, total: nat, d: nat)
    ensures Abs(s * total - a) * d <= total * Abs(s * d - x) + Abs(x * total - a * d)
    ensures total * Abs(s * d - x) <= Abs(s * total - a) * d + Abs(x * total - a * d)
  {
    AbsMul(s * total - a, d);
    AbsMul(s * d - x, total);
    assert (s * total - a) * d == s * total * d - a * d;
    assert (s * d - x) * total == s * total * d - x * total;
    assert total * Abs(s * d - x) == Abs(s * d - x) * total;
  }

  lemma {:induction false} SumLeWith(x: seq<int>, y: seq<int>, e: seq<int>)
    requires |x| == |y| == |e| && forall i :: 0 <= i < |x| ==> x[i] <= y[i] + e[i]
    ensures Sum(x) <= Sum(y) + Sum(e)
  {
    if x != [] { SumLeWith(x[1..], y[1..], e[1..]); }
  }

  lemma SumsClose(s: seq<int>, raw: seq<int>, a: seq<int>, total: nat, d: nat)
    requires |s| == |raw| == |a|
    ensures d * Sum(Distances(a, total, s)) <= total * Sum(Distances(raw, d, s)) + Sum(Errors(raw, a, total, d))
    ensures total * Sum(Distances(raw, d, s)) <= d * Sum(Distances(a, total, s)) + Sum(Errors(raw, a, total, d))
  {
    var exact, computed, errors := Distances(a, total, s), Distances(raw, d, s), Errors(raw, a, total, d);
    var left, right := Scaled(exact, d), Scaled(computed, total);
    forall i | 0 <= i < |s| ensures left[i] <= right[i] + errors[i] && right[i] <= left[i] + errors[i] {
      DistancesClose(s[i], raw[i], a[i], total, d);
      assert left[i] == d * exact[i] == Abs(s[i] * total - a[i]) * d;
    }
    SumLeWith(left, right, errors);
    SumLeWith(right, left, errors);
    ScaledSum(exact, d);
    ScaledSum(computed, total);
  }

  /** The exact quotas, times the total weight. */
  function Quotas(units: nat, ws: seq<Weight>): (a: seq<int>) ensures |a| == |ws| { Scaled(Weights(ws), units) }

  lemma ErrorSum(prec: Precision, units: nat, ws: seq<Weight>)
    requires ValidSpec(ws)
    ensures 2 * Fine(prec) * Sum(Errors(RawUnits(prec, units, ws), Quotas(units, ws), Sum(Weights(ws)), Unit(prec)))
         <= 3 * Unit(prec) * (units * Sum(Weights(ws)))
  {
    var raw, a, total, d := RawUnits(prec, units, ws), Quotas(units, ws), Sum(Weights(ws)), Unit(prec);
    var errors := Errors(raw, a, total, d);
    var left, right := Scaled(errors, 2 * Fine(prec)), Scaled(a, 3 * d);
    TotalWeight(prec, ws);
    forall i | 0 <= i < |ws| ensures left[i] <= right[i] {
      ProductIsNatural(units, ws[i].weight);
      RawError(prec, units * ws[i].weight, total);
      ErrorForms(errors[i], a[i], d, Fine(prec));
    }
    SumLe(left, right);
    ScaledSum(errors, 2 * Fine(prec));
    ScaledSum(a, 3 * d);
    ScaledSum(Weights(ws), units);
  }

  lemma ErrorForms(e: int, a: int, d: int, f: int)
    requires 2 * e * f <= 3 * (a * d)
    ensures 2 * f * e <= 3 * d * a
  {
  }

  lemma Excess(s: int, t: int, cs: int, ct: int, e: int, total: nat, d: nat, f: nat, a: int)
    requires d > 0 && f > 0 && d * s <= total * cs + e && total * ct <= d * t + e && cs <= ct
    requires 2 * f * e <= 3 * d * a
    ensures f * (s - t) <= 3 * a
  {
    LeMul(cs, ct, total);
    assert d * (s - t) == d * s - d * t;
    LeMul(d * (s - t), 2 * e, f);
    assert f * (d * (s - t)) == (f * (s - t)) * d;
    assert f * (2 * e) == 2 * f * e && 3 * d * a == (3 * a) * d;
    CancelLe(f * (s - t), 3 * a, d);
  }

  /** For every unit count, every specification and every other split: the total deviation of
      the computed shares exceeds that of the other split by at most 3 * units / 10^(prec - 1)
      of a unit, which is less than 10^-22 at 100 digits. */
  lemma SharesNearlyOptimal(prec: Precision, units: nat, ws: seq<Weight>, t: seq<int>)
    requires ValidSpec(ws) && units < LIMIT && |t| == |ws| && Sum(t) == units
    ensures var w, total := Weights(ws), Sum(Weights(ws));
      Fine(prec) * (Deviation(units, w, total, Shares(prec, units, ws)) - Deviation(units, w, total, t))
      <= 3 * (units * total)
  {
    var raw, a, total, d := RawUnits(prec, units, ws), Quotas(units, ws), Sum(Weights(ws)), Unit(prec);
    var s := Shares(prec, units, ws);
    ComputedIsOptimal(prec, units, ws, t);
    SumsClose(s, raw, a, total, d);
    SumsClose(t, raw, a, total, d);
    ErrorSum(prec, units, ws);
    Excess(Sum(Distances(a, total, s)), Sum(Distances(a, total, t)), Sum(Distances(raw, d, s)), Sum(Distances(raw, d, t)),
           Sum(Errors(raw, a, total, d)), total, d, Fine(prec), units * total);
  }

  /** While three times the unit count times the total weight stays below 10^(prec - 1), and so
      whenever their product stays below 10^98, no split deviates less. */
  lemma SharesOptimal(prec: Precision, units: nat, ws: seq<Weight>, t: seq<int>)
    requires ValidSpec(ws) && units < LIMIT && |t| == |ws| && Sum(t) == units
    requires 3 * (units * Sum(Weights(ws))) < Fine(prec)
    ensures var w, total := Weights(ws), Sum(Weights(ws));
      Deviation(units, w, total, Shares(prec, units, ws)) <= Deviation(units, w, total, t)
  {
    var w, total := Weights(ws), Sum(Weights(ws));
    SharesNearlyOptimal(prec, units, ws, t);
    NoExcess(Fine(prec), Deviation(units, w, total, Shares(prec, units, ws)) - Deviation(units, w, total, t),
             3 * (units * total));
  }

  lemma NoExcess(f: nat, excess: int, bound: int)
    requires f * excess <= bound < f
    ensures excess <= 0
  {
    if excess > 0 { LeMul(1, excess, f); }
  }

  // ---- exactly when it is the best ----

  /** Position `i` gets one more than the floor of its exact quota. */
  predicate RoundedUp(prec: Precision, units: nat, ws: seq<Weight>, i: nat)
    requires i < |ws| && Sum(Weights(ws)) > 0
  {
    Shares(prec, units, ws)[i] > units * ws[i].weight / Sum(Weights(ws))
  }

  /** Position `i` is rounded up and `j` is not, although the exact remainder of `j` is larger. */
  predicate Inverted(prec: Precision, units: nat, ws: seq<Weight>, i: nat, j: nat)
    requires i < |ws| && j < |ws| && Sum(Weights(ws)) > 0
  {
    && RoundedUp(prec, units, ws, i) && !RoundedUp(prec, units, ws, j)
    && Remainder(units, ws, i) < Remainder(units, ws, j)
  }

  /** The split that gives the unit to the larger remainder. */
  function Swapped(s: seq<int>, i: nat, j: nat): (t: seq<int>)
    requires i < |s| && j < |s|
    ensures |t| == |s|
  {
    s[i := s[i] - 1][j := s[j] + 1]
  }

  lemma SwapSum(s: seq<int>, i: nat, j: nat)
    requires i < |s| && j < |s| && i != j
    ensures Sum(Swapped(s, i, j)) == Sum(s)
  {
    SumUpdate(s, i, s[i] - 1);
    SumUpdate(s[i := s[i] - 1], j, s[j] + 1);
  }

  /** Moving a unit from a share above its quota to one below changes two distances. */
  lemma SwapDistances(a: seq<int>, total: nat, s: seq<int>, i: nat, j: nat)
    requires |s| == |a| && i < |s| && j < |s| && i != j && total > 0
    requires s[i] == a[i] / total + 1 && s[j] == a[j] / total
    ensures Sum(Distances(a, total, Swapped(s, i, j)))
         == Sum(Distances(a, total, s)) + 2 * (a[i] % total) - 2 * (a[j] % total)
  {
    var d := Distances(a, total, s);
    ParityOfOne(a[i], total);
    ParityOfOne(a[j], total);
    SumUpdate(d, i, a[i] % total);
    SumUpdate(d[i := a[i] % total], j, total - a[j] % total);
    assert d[i] == total - a[i] % total && d[j] == a[j] % total;
    assert Distances(a, total, Swapped(s, i, j)) == d[i := a[i] % total][j := total - a[j] % total];
  }

  /** Distances of a quota from its floor and its ceiling. */
  lemma ParityOfOne(a: int, total: nat)
    requires total > 0
    ensures Abs(a / total * total - a) == a % total
    ensures Abs((a / total + 1) * total - a) == total - a % total
  {
    DivMod(a, total);
    NextProduct(a / total, total);
  }

  lemma SwapImproves(prec: Precision, units: nat, ws: seq<Weight>, i: nat, j: nat)
    requires ValidSpec(ws) && units < LIMIT && i < |ws| && j < |ws| && Inverted(prec, units, ws, i, j)
    ensures var w, total, s := Weights(ws), Sum(Weights(ws)), Shares(prec, units, ws);
      && Sum(Swapped(s, i, j)) == units
      && Deviation(units, w, total, s) - Deviation(units, w, total, Swapped(s, i, j))
         == 2 * (Remainder(units, ws, j) - Remainder(units, ws, i))
  {
    var s := Shares(prec, units, ws);
    SharesConserve(prec, units, ws);
    FloorOrCeiling(prec, units, ws, i);
    FloorOrCeiling(prec, units, ws, j);
    SwapSum(s, i, j);
    SwapDistances(Quotas(units, ws), Sum(Weights(ws)), s, i, j);
  }

  /** For all inputs, an inversion is tiny: the two remainders differ by at most
      1.5 * units / 10^(prec - 1) of a unit. */
  lemma InversionsAreTiny(prec: Precision, units: nat, ws: seq<Weight>, i: nat, j: nat)
    requires ValidSpec(ws) && units < LIMIT && i < |ws| && j < |ws| && Inverted(prec, units, ws, i, j)
    ensures Fine(prec) * (2 * (Remainder(units, ws, j) - Remainder(units, ws, i))) <= 3 * (units * Sum(Weights(ws)))
  {
    SwapImproves(prec, units, ws, i, j);
    SharesNearlyOptimal(prec, units, ws, Swapped(Shares(prec, units, ws), i, j));
  }

  /** The least of the marked numbers, or `top` if none is marked. */
  lemma {:induction false} LowestMarked(marked: seq<bool>, r: seq<nat>, top: nat) returns (cut: nat)
    requires |marked| == |r| && forall i :: 0 <= i < |r| ==> r[i] <= top
    ensures cut <= top && forall i :: 0 <= i < |r| && marked[i] ==> r[i] >= cut
    ensures cut == top || exists i :: 0 <= i < |r| && marked[i] && r[i] == cut
  {
    if r == [] {
      cut := top;
    } else {
      var n := |r| - 1;
      cut := LowestMarked(marked[..n], r[..n], top);
      if marked[n] && r[n] < cut { cut := r[n]; }
    }
  }

  ghost predicate NoInversion(prec: Precision, units: nat, ws: seq<Weight>)
    requires Sum(Weights(ws)) > 0
  {
    forall i, j :: 0 <= i < |ws| && 0 <= j < |ws| ==> !Inverted(prec, units, ws, i, j)
  }

  ghost predicate IsBest(units: nat, ws: seq<Weight>, s: seq<int>)
    requires |s| == |ws| && Sum(Weights(ws)) > 0
  {
    forall t: seq<int> :: |t| == |ws| && Sum(t) == units ==>
      Deviation(units, Weights(ws), Sum(Weights(ws)), s) <= Deviation(units, Weights(ws), Sum(Weights(ws)), t)
  }

  function Ups(prec: Precision, units: nat, ws: seq<Weight>): (u: seq<bool>)
    requires Sum(Weights(ws)) > 0
    ensures |u| == |ws|
  {
    seq(|ws|, i requires 0 <= i < |ws| => RoundedUp(prec, units, ws, i))
  }

  /** `cut` is at most every remainder that is rounded up, and one of these or the top. */
  ghost predicate IsLowestUp(prec: Precision, units: nat, ws: seq<Weight>, cut: nat)
    requires Sum(Weights(ws)) > 0
  {
    && cut <= Sum(Weights(ws))
    && (forall i :: 0 <= i < |ws| && Ups(prec, units, ws)[i] ==> Remainders(units, ws)[i] >= cut)
    && (cut < Sum(Weights(ws)) ==> exists i :: 0 <= i < |ws| && Ups(prec, units, ws)[i] && Remainders(units, ws)[i] == cut)
  }

  lemma ShareAtCut(prec: Precision, units: nat, ws: seq<Weight>, cut: nat, i: nat)
    requires ValidSpec(ws) && units < LIMIT && NoInversion(prec, units, ws) && i < |ws|
    requires IsLowestUp(prec, units, ws, cut)
    ensures var s, a, total := Shares(prec, units, ws)[i], Quotas(units, ws)[i], Sum(Weights(ws));
      (s == a / total && a % total <= cut) || (s == a / total + 1 && a % total >= cut)
  {
    FloorOrCeiling(prec, units, ws, i);
    if Ups(prec, units, ws)[i] {
      assert Remainders(units, ws)[i] >= cut;
    } else if cut < Sum(Weights(ws)) {
      var k :| 0 <= k < |ws| && Ups(prec, units, ws)[k] && Remainders(units, ws)[k] == cut;
      assert !Inverted(prec, units, ws, k, i);
    }
  }

  lemma NoInversionIsBest(prec: Precision, units: nat, ws: seq<Weight>, t: seq<int>)
    requires ValidSpec(ws) && units < LIMIT && NoInversion(prec, units, ws) && |t| == |ws| && Sum(t) == units
    ensures var w, total := Weights(ws), Sum(Weights(ws));
      Deviation(units, w, total, Shares(prec, units, ws)) <= Deviation(units, w, total, t)
  {
    var a, total, s := Quotas(units, ws), Sum(Weights(ws)), Shares(prec, units, ws);
    var cut := LowestMarked(Ups(prec, units, ws), Remainders(units, ws), total);
    forall i | 0 <= i < |ws|
      ensures (s[i] == a[i] / total && a[i] % total <= cut) || (s[i] == a[i] / total + 1 && a[i] % total >= cut)
    {
      ShareAtCut(prec, units, ws, cut, i);
    }
    SharesConserve(prec, units, ws);
    CutIsOptimal(a, total, s, cut, t);
  }

  /** For every unit count and every specification: the shares have the least total deviation
      of all splits if and only if no share is rounded up past a larger exact remainder. */
  lemma SharesOptimalExactly(prec: Precision, units: nat, ws: seq<Weight>)
    requires ValidSpec(ws) && units < LIMIT
    ensures IsBest(units, ws, Shares(prec, units, ws)) <==> NoInversion(prec, units, ws)
  {
    if NoInversion(prec, units, ws) {
      forall t: seq<int> | |t| == |ws| && Sum(t) == units
        ensures Deviation(units, Weights(ws), Sum(Weights(ws)), Shares(prec, units, ws))
             <= Deviation(units, Weights(ws), Sum(Weights(ws)), t)
      {
        NoInversionIsBest(prec, units, ws, t);
      }
    }
    if i, j :| 0 <= i < |ws| && 0 <= j < |ws| && Inverted(prec, units, ws, i, j) {
      SwapImproves(prec, units, ws, i, j);
    }
  }

  /** One inversion is enough for another split to be better. */
  lemma InversionIsNotBest(prec: Precision, units: nat, ws: seq<Weight>, s: seq<int>, i: nat, j: nat, p: int, q: int)
    requires ValidSpec(ws) && units < LIMIT && i < |ws| && j < |ws| && Shares(prec, units, ws) == s
    requires units * ws[i].weight / Sum(Weights(ws)) == p < s[i] && s[j] <= q == units * ws[j].weight / Sum(Weights(ws))
    requires Remainder(units, ws, i) < Remainder(units, ws, j)
    ensures !IsBest(units, ws, s)
  {
    SwapImproves(prec, units, ws, i, j);
    BetterSplit(units, ws, s, Swapped(s, i, j));
  }

  lemma BetterSplit(units: nat, ws: seq<Weight>, s: seq<int>, t: seq<int>)
    requires |s| == |t| == |ws| && Sum(t) == units && Sum(Weights(ws)) > 0
    requires Deviation(units, Weights(ws), Sum(Weights(ws)), t) < Deviation(units, Weights(ws), Sum(Weights(ws)), s)
    ensures !IsBest(units, ws, s)
  {
  }

  /** Remainders that differ at all differ by more than the precision can confuse. */
  ghost predicate Apart(prec: Precision, units: nat, ws: seq<Weight>)
    requires Sum(Weights(ws)) > 0
  {
    forall i, j :: 0 <= i < |ws| && 0 <= j < |ws| && Remainder(units, ws, i) < Remainder(units, ws, j) ==>
      Fine(prec) * (2 * (Remainder(units, ws, j) - Remainder(units, ws, i))) > 3 * (units * Sum(Weights(ws)))
  }

  /** A condition on the inputs alone: then the shares are the best split, of any size. */
  lemma ApartIsOptimal(prec: Precision, units: nat, ws: seq<Weight>)
    requires ValidSpec(ws) && units < LIMIT && Apart(prec, units, ws)
    ensures IsBest(units, ws, Shares(prec, units, ws))
  {
    if i, j :| 0 <= i < |ws| && 0 <= j < |ws| && Inverted(prec, units, ws, i, j) {
      InversionsAreTiny(prec, units, ws, i, j);
    }
    SharesOptimalExactly(prec, units, ws);
  }
}
