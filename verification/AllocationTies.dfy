/** An input at which 100 digits cannot tell two remainders apart, and the smaller one gets the
    unit.  Two keys of weights 10^59 and 10^59 + 1 split 2 * 10^74 + 10^15 + 1 units: both
    quotas are a whole number and almost exactly one half. */
module AllocationTies {
  import opened Decimals
  import opened Rounding
  import opened Sorting
  import opened Allocation
  import opened AllocationPrecision
  import opened AllocationLaws
  import opened AllocationOptimality

  // ---- quotients in terms of their nearest representable value ----

  lemma PlaceIs(prec: Precision, n: nat, p: nat)
    requires p > 0 && Pow10(p + prec - 1) <= n < Pow10(p + prec)
    ensures Place(prec, n, 0) == p
  {
    var q := Place(prec, n, 0);
    if q < p { Pow10Splits(q + prec, p + prec - 1); }
    if q > p { Pow10Splits(p + prec, q + prec - 1); }
  }

  lemma SignificantIs(prec: Precision, n: nat, u: nat, y: nat)
    requires u == Pow10(Place(prec, n, 0)) && y % u == 0 && 2 * Abs(y - n) < u
    ensures Significant(prec, n) == y
  {
    RoundIsExactlySpec(n, u, HalfEven, y);
  }

  lemma NearestMultiple(n: nat, g: nat, y: int)
    requires g > 0 && y % g == 0 && 2 * Abs(y - n) < g
    ensures RoundMagnitude(n, g, HalfEven) == y
  {
    RoundIsExactlySpec(n, g, HalfEven, y);
  }

  lemma ScaledMultiple(x: int, u: nat, w: nat)
    requires u > 0 && w > 0 && x % u == 0
    ensures w * u > 0 && x * w % (w * u) == 0
  {
    LeMul(1, w, u);
    Quotient0(x, u);
    Rearranged(x / u, u, w);
    MultipleMod(x / u, w * u);
  }

  lemma Quotient0(x: int, u: nat)
    requires u > 0 && x % u == 0
    ensures x == x / u * u
  {
  }

  lemma Rearranged(k: int, u: int, w: int)
    ensures k * u * w == k * (w * u)
  {
  }

  lemma QuotientIs(prec: Precision, b: nat, w: nat, u: nat, x: nat)
    requires w > 0 && u == Pow10(LastPlace(prec, b, w)) && x % u == 0
    requires 2 * Abs(x * w - b * Unit(prec)) < w * u
    ensures Quotient(prec, b, w) == x
  {
    QuotientBack(prec, b, w);
    ScaledMultiple(x, u, w);
    NearestMultiple(b * Unit(prec), w * u, x * w);
    SameFactor(Quotient(prec, b, w), x, w);
  }

  // ---- the numbers ----

  const K: nat := 1_000_000_000_000_000
  const E: nat := 10_000_000_000_000_000_000_000_000
  const G: nat := 10_000_000_000_000_000_000_000_000_000_000_000
  const M: nat := 100_000_000_000_000_000_000_000_000_000_000_000_000_000_000_000_000_000_000_000

  const TOTAL: nat := 2 * M + 1
  const UNITS: nat := K * TOTAL + 1

  const WEIGHTS := [Weight(1, M), Weight(2, M + 1)]

  lemma Powers()
    ensures Pow10(15) == K && Pow10(25) == E && Pow10(34) == G && Pow10(59) == M
  {
    PowProduct(5, 5, 100_000, 100_000);
    PowProduct(10, 5, 10_000_000_000, 100_000);
    PowProduct(15, 10, K, 10_000_000_000);
    PowProduct(4, 5, 10_000, 100_000);
    PowProduct(25, 9, E, 1_000_000_000);
    PowProduct(34, 25, G, E);
  }

  const H: nat := 5 * (E / 10)

  // ---- both quotas are computed as a whole number and a half ----

  lemma DivBetween(b: nat, d: nat, t: nat, lo: nat)
    requires t > 0 && d > 0 && lo * t <= b < 10 * lo * t
    ensures lo * d <= b * d / t < 10 * (lo * d)
  {
    LeMul(lo * t, b, d);
    LtMul(b, 10 * lo * t, d);
    assert lo * t * d == (lo * d) * t && 10 * lo * t * d == 10 * (lo * d) * t;
    DivMod(b * d, t);
    var n := b * d / t;
    NextProduct(n, t);
    CancelLt(lo * d, n + 1, t);
    CancelLt(n, 10 * (lo * d), t);
  }

  /** The place of the last digit of a quota with `e + 1` digits before the point. */
  lemma QuotaPlace(prec: Precision, b: nat, t: nat, e: nat, lo: nat)
    requires t > 0 && lo == Pow10(e) && lo * t <= b < 10 * lo * t
    ensures LastPlace(prec, b, t) == e + prec + 1
  {
    Pow10Add(e, 2 * prec);
    DivBetween(b, Unit(prec), t, lo);
    assert Pow10(e + 2 * prec + 1) == 10 * Pow10(e + 2 * prec);
    PlaceIs(prec, b * Unit(prec) / t, e + prec + 1);
  }

  /** A half of `e` units is nearest: the rest of the quota differs from it by far less than a
      unit `u`. */
  lemma HalfIsNearest(q: nat, r: nat, u: nat, e: nat, h: nat, m: nat, k: nat)
    requires u > 0 && r <= m <= r + k && 2 * h == e && e * (2 * k + 1) < 2 * m + 1
    ensures var x, t := (q * e + h) * u, 2 * m + 1;
      x >= 0 && x % u == 0 && 2 * Abs(x * t - (q * t + r) * (e * u)) < t * u
  {
    var t, rest := 2 * m + 1, e * (m - r) + h;
    HalfRest(r, e, h, m);
    RestSmall(m - r, k, e, h);
    HalfProducts(q, r, u, e, h, t);
    RestIsNear((q * e + h) * u * t, (q * t + r) * (e * u), rest, t, u);
    HalfMultiple(q, e, h, u);
  }

  lemma RestIsNear(x: int, y: int, rest: int, t: nat, u: nat)
    requires u > 0 && x - y == rest * u && 0 <= 2 * rest < t
    ensures 2 * Abs(x - y) < t * u
  {
    LeMul(0, rest, u);
    LtMul(2 * rest, t, u);
  }

  lemma HalfMultiple(q: nat, e: nat, h: nat, u: nat)
    requires u > 0
    ensures (q * e + h) * u >= 0 && (q * e + h) * u % u == 0
  {
    LeMul(0, q, e);
    LeMul(0, q * e + h, u);
    MultipleMod(q * e + h, u);
  }

  lemma HalfProducts(q: int, r: int, u: int, e: int, h: int, t: int)
    ensures (q * e + h) * u * t - (q * t + r) * (e * u) == (h * t - r * e) * u
  {
  }

  lemma HalfRest(r: int, e: int, h: int, m: int)
    requires 2 * h == e
    ensures h * (2 * m + 1) - r * e == e * (m - r) + h
  {
  }

  lemma RestSmall(d: nat, k: nat, e: nat, h: nat)
    requires d <= k && 2 * h == e
    ensures 0 <= 2 * (e * d + h) <= e * (2 * k + 1)
  {
    LeMul(d, k, e);
    LeMul(0, d, e);
  }

  /** What 100 digits have to do with the numbers above. */
  ghost predicate Scales(prec: Precision, e: nat, u: nat) {
    Pow10(e) == M * K && u == Pow10(e + prec + 1) && Unit(prec) == E * u
  }

  lemma ScalesOf100(prec: Precision, e: nat)
    requires prec == 100 && e == 74
    ensures Scales(prec, e, Pow10(e + prec + 1))
  {
    Powers();
    PowProduct(59, 15, M, K);
    Pow10Add(25, e + prec + 1);
  }

  lemma TiePlace(prec: Precision, e: nat, q: nat, r: nat)
    requires Pow10(e) == M * K && M * K <= q < 2 * (M * K) && r <= M
    ensures LastPlace(prec, q * TOTAL + r, TOTAL) == e + prec + 1
  {
    QuotaRange(q, r, M * K, TOTAL);
    QuotaPlace(prec, q * TOTAL + r, TOTAL, e, M * K);
  }

  lemma TieNearest(prec: Precision, e: nat, u: nat, q: nat, r: nat)
    requires Scales(prec, e, u) && M - K <= r <= M
    ensures var x, b := (q * E + H) * u, q * TOTAL + r;
      x >= 0 && x % u == 0 && 2 * Abs(x * TOTAL - b * Unit(prec)) < TOTAL * u
  {
    HalfIsNearest(q, r, u, E, H, M, K);
  }

  lemma TieQuotient(prec: Precision, e: nat, u: nat, q: nat, r: nat)
    requires Scales(prec, e, u) && M * K <= q < 2 * (M * K) && M - K <= r <= M
    ensures 2 * Quotient(prec, q * TOTAL + r, TOTAL) == (2 * q + 1) * Unit(prec)
  {
    TiePlace(prec, e, q, r);
    TieNearest(prec, e, u, q, r);
    NearestIsQuotient(prec, q * TOTAL + r, TOTAL, u, (q * E + H) * u, (2 * q + 1) * Unit(prec)) by {
      TwiceHalf(q, u, E, H);
    }
  }

  lemma NearestIsQuotient(prec: Precision, b: nat, w: nat, u: nat, x: nat, twice: int)
    requires w > 0 && u == Pow10(LastPlace(prec, b, w)) && x % u == 0
    requires 2 * Abs(x * w - b * Unit(prec)) < w * u && 2 * x == twice
    ensures 2 * Quotient(prec, b, w) == twice
  {
    QuotientIs(prec, b, w, u, x);
  }

  lemma QuotaRange(q: nat, r: nat, lo: nat, t: nat)
    requires lo <= q < 2 * lo && r <= t && t > 0
    ensures lo * t <= q * t + r < 10 * lo * t
  {
    LeMul(lo, q, t);
    LeMul(q + 1, 2 * lo, t);
    NextProduct(q, t);
    LtMul(2 * lo, 10 * lo, t);
  }

  lemma TwiceHalf(q: nat, u: nat, e: nat, h: nat)
    requires 2 * h == e
    ensures 2 * ((q * e + h) * u) == (2 * q + 1) * (e * u)
  {
    assert 2 * (q * e + h) == (2 * q + 1) * e;
    assert (2 * (q * e + h)) * u == (2 * q + 1) * (e * u);
  }

  // ---- the two products ----

  lemma ProductScale(prec: Precision, p: nat, n: nat)
    requires prec == 100 && p == 34 && M * K * M <= n < 10 * (M * K * M)
    ensures Place(prec, n, 0) == p && Pow10(p) == G
  {
    Powers();
    PowProduct(59, 15, M, K);
    PowProduct(74, 59, M * K, M);
    assert Pow10(p + prec) == 10 * Pow10(p + prec - 1);
    PlaceIs(prec, n, p);
  }

  /** The product of the first weight is representable, the second loses its last digits. */
  lemma TieProducts(prec: Precision, p: nat)
    requires prec == 100 && p == 34
    ensures Significant(prec, UNITS * M) == K * M * TOTAL + M
    ensures Significant(prec, UNITS * (M + 1)) == K * (M + 1) * TOTAL + (M - K)
  {
    ProductScale(prec, p, UNITS * M);
    ProductScale(prec, p, UNITS * (M + 1));
    SignificantIs(prec, UNITS * M, G, K * M * TOTAL + M);
    SignificantIs(prec, UNITS * (M + 1), G, K * (M + 1) * TOTAL + (M - K));
  }

  // ---- the split ----

  lemma TieWeights()
    ensures ValidSpec(WEIGHTS) && UNITS < LIMIT && Weights(WEIGHTS) == [M as int, M + 1] && Sum(Weights(WEIGHTS)) == TOTAL
  {
    var w := Weights(WEIGHTS);
    assert w == [M as int, M + 1];
    assert Sum(w) == w[0] + Sum(w[1..]) && Sum(w[1..]) == w[1..][0] + Sum(w[1..][1..]);
  }

  /** A quotient of `q` and a half. */
  lemma HalfParts(x: int, q: int, d: nat)
    requires d > 0 && 2 * x == (2 * q + 1) * d
    ensures x / d == q && 2 * (x % d) == d
  {
    assert (2 * q + 1) * d == 2 * (q * d) + d;
    DivModUnique(x, d, q, x - q * d);
  }

  lemma TieRaw(prec: Precision)
    requires prec == 100 && Sum(Weights(WEIGHTS)) == TOTAL
    ensures var raw, d := RawUnits(prec, UNITS, WEIGHTS), Unit(prec);
      && raw[0] / d == K * M && raw[1] / d == K * (M + 1) && raw[0] % d == raw[1] % d
  {
    var raw, d := RawUnits(prec, UNITS, WEIGHTS), Unit(prec);
    FirstQuota(prec, raw[0]);
    SecondQuota(prec, raw[1]);
    HalfParts(raw[0], K * M, d);
    HalfParts(raw[1], K * (M + 1), d);
  }

  lemma FirstQuota(prec: Precision, x: nat)
    requires prec == 100 && x == RawUnit(prec, UNITS, M, TOTAL)
    ensures 2 * x == (2 * (K * M) + 1) * Unit(prec)
  {
    var p, e: nat := 34, 74;
    TieProducts(prec, p);
    ScalesOf100(prec, e);
    TieQuotient(prec, e, Pow10(e + prec + 1), K * M, M);
  }

  lemma SecondQuota(prec: Precision, x: nat)
    requires prec == 100 && x == RawUnit(prec, UNITS, M + 1, TOTAL)
    ensures 2 * x == (2 * (K * (M + 1)) + 1) * Unit(prec)
  {
    var p, e: nat := 34, 74;
    TieProducts(prec, p);
    ScalesOf100(prec, e);
    TieQuotient(prec, e, Pow10(e + prec + 1), K * (M + 1), M - K);
  }

  /** Of two equal fractions the first position comes first. */
  lemma TieOrder(prec: Precision, raw: seq<int>)
    requires |raw| == 2 && raw[0] % Unit(prec) == raw[1] % Unit(prec)
    ensures Order(prec, raw) == [0, 1]
  {
    var leq := (i: nat, j: nat) => Before(prec, raw, i, j);
    assert Positions(2) == [0, 1] && Positions(2)[1..] == [1] && [1][1..] == [];
    assert Sort(leq, [1]) == Insert(leq, 1, Sort(leq, []));
    assert Sort(leq, Positions(2)) == Insert(leq, 0, Sort(leq, [1]));
  }

  lemma TieShares(prec: Precision)
    requires prec == 100 && Sum(Weights(WEIGHTS)) == TOTAL
    ensures Shares(prec, UNITS, WEIGHTS) == [K * M + 1, K * (M + 1)]
  {
    var raw := RawUnits(prec, UNITS, WEIGHTS);
    TieRaw(prec);
    TieOrder(prec, raw);
    var floors := Floors(prec, raw);
    assert floors == [K * M, K * (M + 1)];
    assert Sum(floors) == floors[0] + Sum(floors[1..]) && Sum(floors[1..]) == floors[1..][0] + Sum(floors[1..][1..]);
    assert Remaining(prec, UNITS, WEIGHTS) == 1;
    assert [0, 1][..1] == [0];
  }

  const SPLIT: seq<int> := [K * M + 1, K * (M + 1)]

  /** The first key gets the unit that is left over, although the second has the larger exact
      remainder, and another split of the same units deviates less. */
  lemma SmallerRemainderFirst()
    ensures ValidSpec(WEIGHTS) && UNITS < LIMIT
    ensures Remainder(UNITS, WEIGHTS, 0) == M && Remainder(UNITS, WEIGHTS, 1) == M + 1
    ensures Shares(PRECISION, UNITS, WEIGHTS) == SPLIT && !IsBest(UNITS, WEIGHTS, SPLIT)
  {
    TieWeights();
    TieRemainders();
    TieShares(PRECISION);
    InversionIsNotBest(PRECISION, UNITS, WEIGHTS, SPLIT, 0, 1, K * M, K * (M + 1));
  }

  lemma TieRemainders()
    requires Sum(Weights(WEIGHTS)) == TOTAL
    ensures UNITS * M / TOTAL == K * M && Remainder(UNITS, WEIGHTS, 0) == M
    ensures UNITS * (M + 1) / TOTAL == K * (M + 1) && Remainder(UNITS, WEIGHTS, 1) == M + 1
  {
    DivModUnique(UNITS * M, TOTAL, K * M, M);
    DivModUnique(UNITS * (M + 1), TOTAL, K * (M + 1), M + 1);
  }
}
