/** What 100 significant digits are enough for. */
module AllocationPrecision {
  import opened Decimals
  import opened Rounding
  import opened Sorting
  import opened Allocation

  /** 10^(prec - 1), the reciprocal of the relative spacing of `prec`-digit numbers. */
  function Fine(prec: Precision): (f: nat) ensures f > 0 { Pow10(prec - 1) }

  /** The lowest multiple that has all `prec` digits above place `p`. */
  lemma PlaceValue(prec: Precision, p: nat)
    ensures Pow10(p + prec - 1) == Pow10(p) * Fine(prec)
  {
    Pow10Add(p, prec - 1);
  }

  /** An error of half a unit `u`, in a number that is at least `f` units, is relatively small. */
  lemma HalfUnitError(n: nat, u: nat, f: nat, error: nat, w: nat)
    requires w > 0 && 2 * error <= w * u && w * (u * f) <= n
    ensures 2 * error * f <= n
  {
    LeMul(2 * error, w * u, f);
    assert w * u * f == w * (u * f);
  }

  lemma SignificantError(prec: Precision, n: nat)
    ensures 2 * Abs(Significant(prec, n) - n) * Fine(prec) <= n
    ensures n < Pow10(prec) ==> Significant(prec, n) == n
  {
    if Place(prec, n, 0) > 0 {
      RoundedSignificant(prec, n);
    } else {
      WholeSignificant(prec, n);
    }
  }

  lemma WholeSignificant(prec: Precision, n: nat)
    requires Place(prec, n, 0) == 0
    ensures Significant(prec, n) == n
    ensures 2 * Abs(Significant(prec, n) - n) * Fine(prec) <= n
  {
    MultipleMod(n, 1);
    RoundFixesMultiples(n, 1, HalfEven);
    assert 2 * 0 * Fine(prec) == 0;
  }

  lemma RoundedSignificant(prec: Precision, n: nat)
    requires Place(prec, n, 0) > 0
    ensures 2 * Abs(Significant(prec, n) - n) * Fine(prec) <= n
    ensures n >= Pow10(prec)
  {
    var p := Place(prec, n, 0);
    MagnitudeMeetsSpec(n, Pow10(p), HalfEven);
    PlaceValue(prec, p);
    HalfUnitError(n, Pow10(p), Fine(prec), Abs(Significant(prec, n) - n), 1);
    Pow10Splits(prec, p + prec - 1);
  }

  /** `x` is a / w in units of 1 / d, rounded to a multiple of `u`: said over the common
      denominator `w`. */
  ghost predicate IsQuotient(x: int, a: nat, w: nat, d: nat, u: nat) {
    w > 0 && u > 0 && w * u > 0 && a * d >= 0 && x * w == RoundMagnitude(a * d, w * u, HalfEven)
  }

  lemma QuotientBack(prec: Precision, a: nat, w: nat)
    requires w > 0
    ensures IsQuotient(Quotient(prec, a, w), a, w, Unit(prec), Pow10(LastPlace(prec, a, w)))
  {
    var u := Pow10(LastPlace(prec, a, w));
    LeMul(1, w, u);
    MagnitudeMeetsSpec(a * Unit(prec), w * u, HalfEven);
    CommonFactor(RoundMagnitude(a * Unit(prec), w * u, HalfEven), w, u);
  }

  lemma QuotientError(prec: Precision, a: nat, w: nat)
    requires w > 0 && LastPlace(prec, a, w) > 0
    ensures 2 * Abs(Quotient(prec, a, w) * w - a * Unit(prec)) * Fine(prec) <= a * Unit(prec)
  {
    var p := LastPlace(prec, a, w);
    QuotientBack(prec, a, w);
    PlaceValue(prec, p);
    FloorMultiple(a * Unit(prec), w);
    QuotientErrorAt(Quotient(prec, a, w), a, w, Unit(prec), Pow10(p), Fine(prec));
  }

  lemma QuotientErrorAt(x: nat, a: nat, w: nat, d: nat, u: nat, f: nat)
    requires IsQuotient(x, a, w, d, u) && u * f <= a * d / w
    ensures 2 * Abs(x * w - a * d) * f <= a * d
  {
    var n := a * d;
    MagnitudeMeetsSpec(n, w * u, HalfEven);
    LeMul(u * f, n / w, w);
    DivMod(n, w);
    HalfUnitError(n, u, f, Abs(x * w - n), w);
  }

  lemma DivMod(x: int, d: nat)
    requires d > 0
    ensures x == d * (x / d) + x % d && 0 <= x % d < d
  {
  }

  /** The last place of a non-zero quotient in the domain lies above the lowest one kept. */
  lemma QuotientPlace(prec: Precision, a: nat, w: nat)
    requires 1 <= a && 1 <= w <= Pow10(prec)
    ensures LastPlace(prec, a, w) > 0
  {
    var h := Pow10(prec);
    Pow10Add(prec, prec);
    FloorMultiple(a * Unit(prec), w);
    QuotientIsLarge(a, w, h, a * Unit(prec) / w);
  }

  lemma QuotientIsLarge(a: nat, w: nat, h: nat, x: int)
    requires 1 <= a && 1 <= w <= h && x == a * (h * h) / w
    ensures x >= h
  {
    var n := a * (h * h);
    LeMul(1, a, h * h);
    LeMul(w, h, h);
    assert n >= h * w;
    assert n == x * w + n % w;
    if x < h { LeMul(x + 1, h, w); NextProduct(x, w); }
  }

  lemma NextProduct(x: int, w: int)
    ensures (x + 1) * w == x * w + w
  {
  }

  /** Only a zero product rounds to zero. */
  lemma SmallProduct(prec: Precision, a: nat)
    requires Significant(prec, a) == 0
    ensures a == 0
  {
    SignificantError(prec, a);
    LeMul(1, Fine(prec), 2 * a);
    assert 2 * Abs(Significant(prec, a) - a) * Fine(prec) == (2 * a) * Fine(prec);
  }

  lemma ZeroQuotient(prec: Precision, w: nat)
    requires w > 0
    ensures Quotient(prec, 0, w) == 0
  {
    QuotientBack(prec, 0, w);
    var g := w * Pow10(LastPlace(prec, 0, w));
    MultipleMod(0, g);
    RoundFixesMultiples(0, g, HalfEven);
    assert 0 * Unit(prec) == 0;
    LeMul(0, Quotient(prec, 0, w), w);
  }

  /** Product and quotient together: relative error at most 1.5 units in the 99th digit. */
  lemma RawError(prec: Precision, a: nat, total: nat)
    requires 1 <= total <= Pow10(prec)
    ensures 2 * Abs(Quotient(prec, Significant(prec, a), total) * total - a * Unit(prec)) * Fine(prec) <= 3 * (a * Unit(prec))
  {
    SignificantError(prec, a);
    if Significant(prec, a) == 0 {
      SmallProduct(prec, a);
      ZeroQuotient(prec, total);
      NoError(total, Unit(prec), Fine(prec));
    } else {
      RawErrorPositive(prec, a, Significant(prec, a), total);
    }
  }

  lemma NoError(w: nat, d: nat, f: nat)
    ensures 2 * Abs(0 * w - 0 * d) * f <= 3 * (0 * d)
  {
  }

  lemma RawErrorPositive(prec: Precision, a: nat, b: nat, total: nat)
    requires 1 <= total <= Pow10(prec) && b > 0
    requires 2 * Abs(b - a) * Fine(prec) <= a
    ensures 2 * Abs(Quotient(prec, b, total) * total - a * Unit(prec)) * Fine(prec) <= 3 * (a * Unit(prec))
  {
    QuotientPlace(prec, b, total);
    QuotientError(prec, b, total);
    CombineErrors(a, b, Quotient(prec, b, total) * total, Unit(prec), Fine(prec));
  }

  lemma CombineErrors(a: nat, b: nat, y: int, d: nat, f: nat)
    requires f > 0 && 2 * Abs(b - a) * f <= a
    requires 2 * Abs(y - b * d) * f <= b * d
    ensures 2 * Abs(y - a * d) * f <= 3 * (a * d)
  {
    var e := Abs(b - a);
    LeMul(1, f, 2 * e);
    LeMul(b, 2 * a, d);
    assert (2 * a) * d == 2 * (a * d);
    LeMul(2 * e * f, a, d);
    Regroup(e, f, d);
    AbsMul(b - a, d);
    assert (b - a) * d == b * d - a * d;
    AddErrors(Abs(y - a * d), Abs(y - b * d), e * d, f, b * d, a * d);
  }

  lemma Regroup(e: nat, f: nat, d: nat)
    ensures 2 * e * f * d == 2 * (e * d) * f
  {
  }

  lemma AddErrors(h: nat, g: nat, e: nat, f: nat, bd: int, ad: int)
    requires h <= g + e && 2 * g * f <= bd && 2 * e * f <= ad && bd <= 2 * ad
    ensures 2 * h * f <= 3 * ad
  {
    LeMul(2 * h, 2 * g + 2 * e, f);
    assert (2 * g + 2 * e) * f == 2 * g * f + 2 * e * f;
  }

  // ---- the decimal context, said of the numbers ----

  /** `x` is `n` / `w` rounded half even to `prec` significant digits: `p` is the place of the
      last digit kept, and the digits kept are `prec`, or all there are. */
  ghost predicate IsDecimal(prec: Precision, n: nat, w: nat, p: nat, x: int) {
    && w > 0 && w * Pow10(p) > 0 && n / w < Pow10(p + prec) && (p > 0 ==> Pow10(p + prec - 1) <= n / w)
    && IsRounded(n, w * Pow10(p), HalfEven, x * w)
  }

  lemma SignificantIsDecimal(prec: Precision, n: nat)
    ensures IsDecimal(prec, n, 1, Place(prec, n, 0), Significant(prec, n))
  {
    MagnitudeMeetsSpec(n, Pow10(Place(prec, n, 0)), HalfEven);
  }

  /** Every computed quota is the product rounded to `prec` digits, divided and rounded again. */
  lemma RawUnitIsDecimal(prec: Precision, units: nat, weight: nat, total: nat)
    requires total > 0
    ensures exists p: nat, b: nat, q: nat ::
      IsDecimal(prec, units * weight, 1, p, b) && b * Unit(prec) >= 0
      && IsDecimal(prec, b * Unit(prec), total, q, RawUnit(prec, units, weight, total))
  {
    ProductIsNatural(units, weight);
    var b := Significant(prec, units * weight);
    SignificantIsDecimal(prec, units * weight);
    QuotientBack(prec, b, total);
    var q := LastPlace(prec, b, total);
    MagnitudeMeetsSpec(b * Unit(prec), total * Pow10(q), HalfEven);
    assert IsDecimal(prec, b * Unit(prec), total, q, RawUnit(prec, units, weight, total));
  }

  // ---- every input: the floors never overshoot ----

  lemma {:induction false} SumBound(s: seq<int>, b: int)
    requires forall i :: 0 <= i < |s| ==> s[i] <= b
    ensures Sum(s) <= |s| * b
  {
    if s != [] {
      SumBound(s[1..], b);
      NextProduct(|s| - 1, b);
    }
  }

  /** The total weight, at most a thousand weights of the schema, is far below 10^prec. */
  lemma TotalWeight(prec: Precision, ws: seq<Weight>)
    requires ValidSpec(ws)
    ensures 1 <= Sum(Weights(ws)) <= Pow10(prec)
    ensures forall i :: 0 <= i < |ws| ==> ws[i].weight <= Sum(Weights(ws))
  {
    var s := Weights(ws);
    forall i | 0 <= i < |s| ensures 0 <= s[i] <= LIMIT && s[i] == ws[i].weight { assert ws[i] in ws; }
    SumBound(s, LIMIT);
    SumNonNegative(s);
    LeMul(|s|, 1000, LIMIT);
    LimitIsPow10();
    Pow10Add(76, 3);
    assert Pow10(3) == 1000;
    Pow10Splits(79, 100);
    forall i | 0 <= i < |ws| ensures ws[i].weight <= Sum(s) { assert s[i] == ws[i].weight; }
  }

  /** Bounds on one raw unit that add up over the weights. */
  lemma RawBounds(prec: Precision, units: nat, w: nat, total: nat)
    requires 1 <= total <= Pow10(prec)
    ensures var x := RawUnit(prec, units, w, total);
      && (2 * Fine(prec) * total) * x <= ((2 * Fine(prec) + 3) * Unit(prec) * units) * w
      && ((2 * Fine(prec) - 3) * Unit(prec) * units) * w <= (2 * Fine(prec) * total) * x
  {
    ProductIsNatural(units, w);
    RawError(prec, units * w, total);
    SpreadError(RawUnit(prec, units, w, total), total, units, w, Unit(prec), Fine(prec));
  }

  lemma SpreadError(x: nat, total: nat, units: nat, w: nat, d: nat, f: nat)
    requires 2 * Abs(x * total - (units * w) * d) * f <= 3 * ((units * w) * d)
    ensures (2 * f * total) * x <= ((2 * f + 3) * d * units) * w
    ensures ((2 * f - 3) * d * units) * w <= (2 * f * total) * x
  {
    var y, z := x * total, (units * w) * d;
    SignedError(y, z, f);
    Regroup3(2 * f, total, x);
    SpreadProduct(2 * f + 3, d, units, w);
    SpreadProduct(2 * f - 3, d, units, w);
  }

  lemma SignedError(y: int, z: int, f: nat)
    requires 2 * Abs(y - z) * f <= 3 * z
    ensures (2 * f - 3) * z <= 2 * f * y <= (2 * f + 3) * z
  {
    AbsMul(2 * (y - z), f);
    assert 2 * (y - z) * f == 2 * f * y - 2 * f * z;
    assert (2 * f + 3) * z == 2 * f * z + 3 * z;
    assert (2 * f - 3) * z == 2 * f * z - 3 * z;
  }

  lemma Regroup3(k: int, total: int, x: int)
    ensures (k * total) * x == k * (x * total) == (k * x) * total
  {
  }

  lemma SpreadProduct(k: int, d: int, units: int, w: int)
    ensures (k * d * units) * w == k * ((units * w) * d)
  {
  }

  /** Elementwise bounds with common factors are bounds on the sums. */
  lemma ScaledSums(raw: seq<int>, s: seq<int>, p: int, lo: int, hi: int)
    requires |raw| == |s|
    requires forall i :: 0 <= i < |s| ==> lo * s[i] <= p * raw[i] <= hi * s[i]
    ensures lo * Sum(s) <= p * Sum(raw) <= hi * Sum(s)
  {
    var scaled, above, below := Scaled(raw, p), Scaled(s, hi), Scaled(s, lo);
    SumLe(below, scaled); SumLe(scaled, above);
    SumScaled(raw, scaled, p); SumScaled(s, above, hi); SumScaled(s, below, lo);
  }

  /** Every raw unit is relatively exact, in the form that adds up. */
  ghost predicate Bounded(raw: seq<int>, s: seq<int>, units: nat, d: nat, f: nat) {
    && |raw| == |s|
    && forall i :: 0 <= i < |s| ==>
         ((2 * f - 3) * d * units) * s[i]
           <= (2 * f * Sum(s)) * raw[i]
           <= ((2 * f + 3) * d * units) * s[i]
  }

  lemma AllRawBounds(prec: Precision, units: nat, ws: seq<Weight>)
    requires ValidSpec(ws)
    ensures Bounded(RawUnits(prec, units, ws), Weights(ws), units, Unit(prec), Fine(prec))
  {
    TotalWeight(prec, ws);
    var raw, s := RawUnits(prec, units, ws), Weights(ws);
    forall i | 0 <= i < |s|
      ensures ((2 * Fine(prec) - 3) * Unit(prec) * units) * s[i]
        <= (2 * Fine(prec) * Sum(s)) * raw[i]
        <= ((2 * Fine(prec) + 3) * Unit(prec) * units) * s[i]
    {
      RawBounds(prec, units, ws[i].weight, Sum(s));
    }
  }

  /** The computed quotients add up to within half a unit of the unit count, in fixed point. */
  lemma RawSum(prec: Precision, units: nat, ws: seq<Weight>)
    requires ValidSpec(ws) && units < LIMIT
    ensures 2 * Abs(Sum(RawUnits(prec, units, ws)) - Unit(prec) * units) < Unit(prec)
  {
    AllRawBounds(prec, units, ws);
    FineExceeds(prec, units);
    BoundedSums(RawUnits(prec, units, ws), Weights(ws), units, Unit(prec), Fine(prec));
  }

  lemma BoundedSums(raw: seq<int>, s: seq<int>, units: nat, d: nat, f: nat)
    requires Sum(s) > 0 && d > 0 && f > 0 && 6 * units < 2 * f
    requires Bounded(raw, s, units, d, f)
    ensures 2 * Abs(Sum(raw) - d * units) < d
  {
    ScaledSums(raw, s, 2 * f * Sum(s), (2 * f - 3) * d * units, (2 * f + 3) * d * units);
    SumError(Sum(raw), Sum(s), units, d, f);
  }

  lemma FineExceeds(prec: Precision, units: nat)
    requires units < LIMIT
    ensures 6000 * units < 2 * Fine(prec)
  {
    LimitIsPow10();
    Pow10Splits(80, prec - 1);
    Pow10Add(4, 76);
    assert Pow10(4) == 10_000;
  }

  lemma SumError(x: int, total: nat, units: nat, d: nat, f: nat)
    requires total > 0 && d > 0 && f > 0 && 6 * units < 2 * f
    requires ((2 * f - 3) * d * units) * total <= (2 * f * total) * x <= ((2 * f + 3) * d * units) * total
    ensures 2 * Abs(x - d * units) < d
  {
    Regroup3(2 * f, total, x);
    CancelLe(2 * f * x, (2 * f + 3) * d * units, total);
    CancelLe((2 * f - 3) * d * units, 2 * f * x, total);
    Expand(f, d, units, 3);
    Expand(f, d, units, -3);
    LtMul(6 * units, 2 * f, d);
    WithinUnit(x, d * units, d, 2 * f, 3 * units * d);
  }

  lemma Expand(f: int, d: int, units: int, k: int)
    ensures (2 * f + k) * d * units == 2 * f * (d * units) + k * units * d
  {
  }

  lemma WithinUnit(x: int, m: int, d: nat, g: nat, e: int)
    requires g > 0 && g * m - e <= g * x <= g * m + e && 2 * e < g * d
    ensures 2 * Abs(x - m) < d
  {
    assert (2 * (x - m)) * g == 2 * (g * x) - 2 * (g * m);
    assert (2 * (m - x)) * g == 2 * (g * m) - 2 * (g * x);
    CancelLt(2 * (x - m), d, g);
    CancelLt(2 * (m - x), d, g);
  }

  /** Whatever the total and the weights: at least no unit is missing, and at most one per
      position is left over.  So order[:remaining] takes exactly that many positions, and
      the result always adds up. */
  lemma RemainingRange(prec: Precision, units: nat, ws: seq<Weight>)
    requires ValidSpec(ws) && units < LIMIT
    ensures 0 <= Remaining(prec, units, ws) <= |ws|
  {
    RawSum(prec, units, ws);
    FloorsAndFractions(units, RawUnits(prec, units, ws), Floors(prec, RawUnits(prec, units, ws)), Unit(prec));
  }

  lemma FloorsAndFractions(units: nat, raw: seq<int>, base: seq<int>, d: nat)
    requires d > 0 && |base| == |raw| && Abs(Sum(raw) - d * units) < d
    requires forall i :: 0 <= i < |raw| ==> base[i] == raw[i] / d
    ensures 0 <= units - Sum(base) <= |raw|
  {
    var whole := Scaled(base, d);
    var fractions := seq(|raw|, i requires 0 <= i < |raw| => raw[i] % d);
    forall i | 0 <= i < |raw| ensures raw[i] == whole[i] + fractions[i] {
      DivMod(raw[i], d);
    }
    forall i | 0 <= i < |raw| ensures 0 <= fractions[i] <= d { DivMod(raw[i], d); }
    SumScaled(base, whole, d);
    SumAdd(whole, fractions, raw);
    SumNonNegative(fractions);
    SumBound(fractions, d);
    RangeFromSums(units, Sum(base), Sum(raw), Sum(fractions), |raw|, d);
  }

  lemma RangeFromSums(units: nat, base: int, raw: int, fractions: int, n: nat, d: nat)
    requires d > 0 && Abs(raw - d * units) < d
    requires raw == d * base + fractions && 0 <= fractions <= n * d
    ensures 0 <= units - base <= n
  {
    assert d * units - d * base == d * (units - base);
    NextProduct(n, d);
    CancelLt(-1, units - base, d);
    CancelLt(units - base, n + 1, d);
  }

  // ---- below 10^98: the floors and the order are the exact ones ----

  /** A computed quotient has the exact floor, and its fraction is within 1/20 of a weight
      unit of the exact remainder. */
  lemma RawExact(prec: Precision, a: nat, w: nat)
    requires 1 <= w <= Pow10(prec) && a < Pow10(prec - 2)
    ensures ExactParts(Quotient(prec, Significant(prec, a), w), a, w, Unit(prec))
  {
    Pow10Splits(prec - 2, prec);
    SignificantError(prec, a);
    if a == 0 {
      ZeroQuotient(prec, w);
      ZeroParts(w, Unit(prec));
    } else {
      RawExactPositive(prec, a, w);
    }
  }

  /** Exact floor, and a fraction within 1/20 of a weight unit of the exact remainder. */
  ghost predicate ExactParts(x: int, a: int, w: int, d: int) {
    w > 0 && d > 0 && x / d == a / w && 20 * Abs(x % d * w - a % w * d) < d
  }

  lemma ZeroParts(w: nat, d: nat)
    requires w > 0 && d > 0
    ensures ExactParts(0, 0, w, d)
  {
    DivModUnique(0, d, 0, 0);
    DivModUnique(0, w, 0, 0);
  }

  lemma WholeParts(a: nat, w: nat, q: int, d: nat)
    requires w > 0 && d > 0 && a == q * w
    ensures ExactParts(q * d, a, w, d)
  {
    MultipleMod(q, d);
    MultipleMod(q, w);
  }

  lemma RawExactPositive(prec: Precision, a: nat, w: nat)
    requires 1 <= w <= Pow10(prec) && 1 <= a < Pow10(prec - 2)
    ensures ExactParts(Quotient(prec, a, w), a, w, Unit(prec))
  {
    DivMod(a, w);
    if a % w == 0 {
      WholeQuotient(prec, a, w, a / w);
      WholeParts(a, w, a / w, Unit(prec));
    } else {
      QuotientPlace(prec, a, w);
      QuotientError(prec, a, w);
      assert Fine(prec) == 10 * Pow10(prec - 2);
      SmallError(a, w, Quotient(prec, a, w), Unit(prec), Pow10(prec - 2));
      FractionExact(a, w, Quotient(prec, a, w), Unit(prec));
    }
  }

  lemma SmallError(a: nat, w: nat, x: nat, d: nat, h: nat)
    requires a < h && d > 0
    requires 2 * Abs(x * w - a * d) * (10 * h) <= a * d
    ensures 20 * Abs(x * w - a * d) < d
  {
    var e := Abs(x * w - a * d);
    LtMul(a, h, d);
    assert 2 * e * (10 * h) == (20 * e) * h;
    CancelLt(20 * e, d, h);
  }

  lemma FractionExact(a: nat, w: nat, x: nat, d: nat)
    requires w > 0 && d > 0 && a % w > 0 && 20 * Abs(x * w - a * d) < d
    ensures ExactParts(x, a, w, d)
  {
    DivMod(a, w);
    FractionAt(a, w, a / w, a % w, x, d);
    DivModUnique(x, d, a / w, x - a / w * d);
  }

  lemma FractionAt(a: nat, w: nat, q: int, r: int, x: nat, d: nat)
    requires w > 0 && d > 0 && a == w * q + r && 1 <= r <= w - 1 && 20 * Abs(x * w - a * d) < d
    ensures var f := x - q * d; 0 <= f < d && 20 * Abs(f * w - r * d) < d
  {
    var f := x - q * d;
    Subtract(x, q, r, w, d);
    LeMul(1, r, d);
    LeMul(r, w - 1, d);
    NextProduct(w - 1, d);
    CancelLt(0, f, w);
    CancelLt(f, d, w);
  }

  lemma Subtract(x: int, q: int, r: int, w: int, d: int)
    ensures (x - q * d) * w - r * d == x * w - (w * q + r) * d
  {
  }

  /** An integral quotient is representable, so it is computed exactly. */
  lemma WholeQuotient(prec: Precision, a: nat, w: nat, q: int)
    requires 1 <= w <= Pow10(prec) && 1 <= a < Pow10(prec - 2) && a == q * w
    ensures Quotient(prec, a, w) == q * Unit(prec)
  {
    var p := LastPlace(prec, a, w);
    QuotientPlace(prec, a, w);
    PlaceBelow(prec, a, w, p);
    GridQuotient(prec, a, w, p, q);
  }

  lemma GridQuotient(prec: Precision, a: nat, w: nat, p: nat, q: int)
    requires w > 0 && a == q * w && p == LastPlace(prec, a, w) <= 2 * prec
    ensures Quotient(prec, a, w) == q * Unit(prec)
  {
    UnitSplits(prec, p);
    QuotientBack(prec, a, w);
    OnGrid(a, w, q, Quotient(prec, a, w), Unit(prec), Pow10(p), Pow10(2 * prec - p));
  }

  lemma UnitSplits(prec: Precision, p: nat)
    requires p <= 2 * prec
    ensures Unit(prec) == Pow10(2 * prec - p) * Pow10(p)
  {
    Pow10Splits(p, 2 * prec);
  }

  lemma OnGrid(a: nat, w: nat, q: int, x: int, d: nat, u: nat, v: nat)
    requires w > 0 && u > 0 && w * u > 0 && a == q * w && d == v * u
    requires IsQuotient(x, a, w, d, u)
    ensures x == q * d
  {
    Rearrange(q, w, v, u);
    assert a * d == (q * v) * (w * u);
    MultipleMod(q * v, w * u);
    RoundFixesMultiples(a * d, w * u, HalfEven);
    assert (q * d) * w == q * w * d;
    SameFactor(x, q * d, w);
  }

  lemma SameFactor(x: int, y: int, w: int)
    requires w > 0 && x * w == y * w
    ensures x == y
  {
    if x < y { LtMul(x, y, w); }
    if y < x { LtMul(y, x, w); }
  }

  lemma Rearrange(q: int, w: int, v: int, u: int)
    ensures q * w * (v * u) == (q * v) * (w * u)
  {
  }

  lemma PlaceBelow(prec: Precision, a: nat, w: nat, p: nat)
    requires w > 0 && 1 <= a < Pow10(prec - 2) && p == LastPlace(prec, a, w) > 0
    ensures p <= 2 * prec
  {
    FloorMultiple(a * Unit(prec), w);
    if p > 2 * prec {
      Pow10Add(prec - 2, 2 * prec);
      Pow10Splits(prec - 2 + 2 * prec, p + prec - 1);
      QuotientSmall(a, w, Unit(prec), Pow10(prec - 2), a * Unit(prec) / w);
    }
  }

  lemma QuotientSmall(a: nat, w: nat, d: nat, h: nat, x: int)
    requires w > 0 && d > 0 && a < h && x == a * d / w
    ensures x < h * d
  {
    LtMul(a, h, d);
    assert a * d == x * w + a * d % w;
    if x > 0 { LeMul(1, w, x); }
  }

  /** Larger exact remainder, larger computed fraction: rounding never inverts the order. */
  lemma FractionOrder(prec: Precision, a: nat, b: nat, w: nat)
    requires 1 <= w <= Pow10(prec) && a < Pow10(prec - 2) && b < Pow10(prec - 2) && a % w > b % w
    ensures Quotient(prec, Significant(prec, a), w) % Unit(prec) > Quotient(prec, Significant(prec, b), w) % Unit(prec)
  {
    RawExact(prec, a, w);
    RawExact(prec, b, w);
    OrderFromErrors(Quotient(prec, Significant(prec, a), w) % Unit(prec), Quotient(prec, Significant(prec, b), w) % Unit(prec),
                    a % w, b % w, w, Unit(prec));
  }

  lemma OrderFromErrors(x: int, y: int, r: int, s: int, w: nat, d: nat)
    requires w > 0 && r > s && 20 * Abs(x * w - r * d) < d && 20 * Abs(y * w - s * d) < d
    ensures x > y
  {
    LeMul(s + 1, r, d);
    NextProduct(s, d);
    CancelLt(y, x, w);
  }
}
