/** Largest-remainder allocation, computed as allocate_amount computes it: products and
    quotients are rounded to `prec` significant digits before anything is floored. */
module Allocation {
  import opened Decimals
  import opened Rounding
  import opened Sorting

  /** `key` stands for the fingerprint of the dimensions; its order is the text order. */
  datatype Weight = Weight(key: nat, weight: nat)

  function Weights(ws: seq<Weight>): (s: seq<int>)
    ensures |s| == |ws|
  {
    seq(|ws|, i requires 0 <= i < |ws| => ws[i].weight)
  }

  predicate ByKey(a: Weight, b: Weight) { a.key <= b.key }

  predicate UniqueKeys(ws: seq<Weight>) {
    forall i, j :: 0 <= i < j < |ws| ==> ws[i].key != ws[j].key
  }

  /** The constructors of the weights and of AllocationSpecV1: they check the weights, and the
      specification puts them in key order. */
  function MakeSpec(ws: seq<Weight>): Result<seq<Weight>> {
    if exists w <- ws :: !Fits(w.weight) then Err(DecimalOverflow)
    else if ws == [] || |ws| > 1000 then Err(InvalidCost)
    else if !UniqueKeys(ws) then Err(InvalidCost)
    else if Sum(Weights(ws)) <= 0 then Err(InvalidCost)
    else Ok(Sort(ByKey, ws))
  }

  /** What a constructed specification guarantees. */
  predicate ValidSpec(ws: seq<Weight>) {
    && 1 <= |ws| <= 1000
    && (forall w <- ws :: Fits(w.weight))
    && (forall i, j :: 0 <= i < j < |ws| ==> ws[i].key < ws[j].key)
    && Sum(Weights(ws)) > 0
  }

  // ---- arithmetic at the precision of a decimal context ----

  /** Significant digits of a local decimal context.  What follows needs at least the 100
      that allocate_amount asks for. */
  type Precision = p: nat | p >= 100 witness 100

  const PRECISION: Precision := 100

  /** Quotients are kept in fixed point with twice as many places.  Weights fit the decimal
      schema, so the significant digits of a non-zero quotient end before the last place. */
  function Unit(prec: Precision): (u: nat) ensures u > 0 { Pow10(2 * prec) }

  /** The lowest place at or above `t` for which `n` has at most `prec` digits from there up. */
  function Place(prec: Precision, n: nat, t: nat): (p: nat)
    ensures p >= t && n < Pow10(p + prec)
    ensures p > t ==> Pow10(p + prec - 1) <= n
    decreases if n < Pow10(t + prec) then 0 else n - Pow10(t + prec) + 1
  {
    if n < Pow10(t + prec) then t
    else assert Pow10(t + prec + 1) == 10 * Pow10(t + prec); Place(prec, n, t + 1)
  }

  /** An integer coefficient rounded to `prec` significant digits. */
  function Significant(prec: Precision, n: nat): nat {
    var u := Pow10(Place(prec, n, 0));
    MagnitudeMeetsSpec(n, u, HalfEven);
    RoundMagnitude(n, u, HalfEven)
  }

  /** The lowest of the `prec` significant digits of a / w, in fixed point. */
  function LastPlace(prec: Precision, a: nat, w: nat): nat
    requires w > 0
  {
    FloorMultiple(a * Unit(prec), w);
    Place(prec, a * Unit(prec) / w, 0)
  }

  /** a / w rounded to `prec` significant digits, in fixed point: the fraction is rounded over
      the common denominator `w`, which then divides it. */
  function Quotient(prec: Precision, a: nat, w: nat): nat
    requires w > 0
  {
    var u := Pow10(LastPlace(prec, a, w));
    LeMul(1, w, u);
    MagnitudeMeetsSpec(a * Unit(prec), w * u, HalfEven);
    CommonFactor(RoundMagnitude(a * Unit(prec), w * u, HalfEven), w, u);
    RoundMagnitude(a * Unit(prec), w * u, HalfEven) / w
  }

  // ---- the algorithm ----

  function RawUnit(prec: Precision, units: nat, weight: nat, total: nat): nat
    requires total > 0
  {
    ProductIsNatural(units, weight);
    Quotient(prec, Significant(prec, units * weight), total)
  }

  function RawUnits(prec: Precision, units: nat, ws: seq<Weight>): (s: seq<int>)
    requires Sum(Weights(ws)) > 0
    ensures |s| == |ws|
  {
    seq(|ws|, i requires 0 <= i < |ws| => RawUnit(prec, units, ws[i].weight, Sum(Weights(ws))))
  }

  function Floors(prec: Precision, raw: seq<int>): (s: seq<int>)
    ensures |s| == |raw|
  {
    seq(|raw|, i requires 0 <= i < |raw| => raw[i] / Unit(prec))
  }

  /** Sort key of a position: descending fraction, then ascending key, which is position
      order because a specification is kept in key order. */
  predicate Before(prec: Precision, raw: seq<int>, i: nat, j: nat) {
    if i < |raw| && j < |raw| then
      raw[i] % Unit(prec) > raw[j] % Unit(prec) || (raw[i] % Unit(prec) == raw[j] % Unit(prec) && i <= j)
    else
      i <= j && (j < |raw| ==> i < |raw|)
  }

  function Order(prec: Precision, raw: seq<int>): seq<nat> {
    Sort((i, j) => Before(prec, raw, i, j), Positions(|raw|))
  }

  /** `base` with one more unit at each position in `chosen`. */
  function Bumped(base: seq<int>, chosen: seq<nat>): (s: seq<int>)
    ensures |s| == |base|
  {
    seq(|base|, i requires 0 <= i < |base| => base[i] + if i in chosen then 1 else 0)
  }

  /** How many units the floors leave over. */
  function Remaining(prec: Precision, units: nat, ws: seq<Weight>): int
    requires Sum(Weights(ws)) > 0
  {
    units - Sum(Floors(prec, RawUnits(prec, units, ws)))
  }

  /** The list slice order[:n] of Python, for every integer n. */
  function Prefix(order: seq<nat>, n: int): seq<nat> {
    if n >= |order| then order
    else if n >= 0 then order[..n]
    else if |order| + n > 0 then order[..|order| + n]
    else []
  }

  function Shares(prec: Precision, units: nat, ws: seq<Weight>): (s: seq<int>)
    requires Sum(Weights(ws)) > 0
    ensures |s| == |ws|
  {
    var raw := RawUnits(prec, units, ws);
    Bumped(Floors(prec, raw), Prefix(Order(prec, raw), Remaining(prec, units, ws)))
  }

  function Scaled(s: seq<int>, k: int): (t: seq<int>)
    ensures |t| == |s|
  {
    seq(|s|, i requires 0 <= i < |s| => k * s[i])
  }

  function UnitCount(total: int, scale: nat): nat
    requires scale <= 18
  {
    FloorMultiple(Abs(total), Quantum(scale));
    Abs(total) / Quantum(scale)
  }

  function Sign(total: int): int { if total < 0 then -1 else 1 }

  /** allocate_amount up to the checks on its result. */
  function AllocationOf(prec: Precision, total: int, ws: seq<Weight>, scale: nat): Result<seq<int>>
    requires Sum(Weights(ws)) > 0
  {
    if scale > 18 then Err(InvalidCost)
    else if total % Quantum(scale) != 0 then Err(InvalidCost)
    else Ok(Scaled(Shares(prec, UnitCount(total, scale), ws), Sign(total) * Quantum(scale)))
  }
}
