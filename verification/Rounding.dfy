/** RoundingPolicy: four rounding modes at two scales. */
module Rounding {
  import opened Decimals

  datatype Mode = HalfEven | HalfUp | Down | Up

  datatype Policy = Policy(currencyScale: nat, intermediateScale: nat,
                           intermediateMode: Mode, finalMode: Mode)

  /** What the constructor accepts. */
  predicate ValidPolicy(p: Policy) {
    p.currencyScale <= p.intermediateScale <= 18 && p.currencyScale <= 9
  }

  /** One unit at `scale` fractional digits, counted in units of 10^-18. */
  function Quantum(scale: nat): (u: nat)
    requires scale <= 18
    ensures u > 0
  {
    Pow10(18 - scale)
  }

  predicate RoundsUp(q: nat, r: nat, u: nat, m: Mode) {
    match m
    case Down => false
    case Up => r > 0
    case HalfUp => 2 * r >= u
    case HalfEven => 2 * r > u || (2 * r == u && q % 2 == 1)
  }

  function RoundMagnitude(v: nat, u: nat, m: Mode): int
    requires u > 0
  {
    if RoundsUp(v / u, v % u, u, m) then v - v % u + u else v - v % u
  }

  /** Decimal.quantize: all four modes round the magnitude and keep the sign. */
  function Round(v: int, u: nat, m: Mode): int
    requires u > 0
  {
    if v < 0 then -RoundMagnitude(-v, u, m) else RoundMagnitude(v, u, m)
  }

  function Quantize(v: int, scale: nat, m: Mode): Result<int>
    requires scale <= 18
  {
    Fit(Round(v, Quantum(scale), m))
  }

  function Intermediate(p: Policy, v: int): Result<int> requires ValidPolicy(p) {
    Quantize(v, p.intermediateScale, p.intermediateMode)
  }

  function Final(p: Policy, v: int): Result<int> requires ValidPolicy(p) {
    Quantize(v, p.currencyScale, p.finalMode)
  }

  // ---- what the four modes mean ----

  /** `x` is the multiple of `u` that mode `m` selects for `v`, said without dividing `v`. */
  ghost predicate IsRounded(v: int, u: nat, m: Mode, x: int)
    requires u > 0
  {
    && x % u == 0
    && match m
       case Down => Abs(x) <= Abs(v) < Abs(x) + u && (x == 0 || (x > 0 <==> v > 0))
       case Up => Abs(x) - u < Abs(v) <= Abs(x) && (x == 0 || (x > 0 <==> v > 0))
       case HalfUp => 2 * Abs(x - v) <= u && (2 * Abs(x - v) == u ==> Abs(x) > Abs(v))
       case HalfEven => 2 * Abs(x - v) <= u && (2 * Abs(x - v) == u ==> (x / u) % 2 == 0)
  }

  lemma NegativeMultiple(x: int, u: nat)
    requires u > 0 && x % u == 0
    ensures (-x) % u == 0 && (-x) / u == -(x / u)
  {
    assert -x == (-(x / u)) * u;
    DivModUnique(-x, u, -(x / u), 0);
  }

  lemma NextMultiple(x: int, u: nat)
    requires u > 0 && x % u == 0
    ensures (x + u) % u == 0 && (x + u) / u == x / u + 1
  {
    assert (x / u + 1) * u == x / u * u + u;
    DivModUnique(x + u, u, x / u + 1, 0);
  }

  /** Two different multiples of `u` are at least `u` apart. */
  lemma MultiplesApart(a: int, b: int, u: nat)
    requires u > 0 && a % u == 0 && b % u == 0 && a < b
    ensures a + u <= b
  {
    assert a == a / u * u && b == b / u * u;
    CancelLt(a / u, b / u, u);
    LeMul(a / u + 1, b / u, u);
    assert (a / u + 1) * u == a / u * u + u;
  }

  lemma FloorMultiple(v: int, u: nat)
    requires u > 0
    ensures (v - v % u) % u == 0 && (v - v % u) / u == v / u && 0 <= v % u < u
    ensures v >= 0 ==> v / u >= 0 && v % u <= v
  {
    assert v - v % u == v / u * u;
    MultipleMod(v / u, u);
    if v >= 0 && v / u < 0 { LeMul(v / u, -1, u); }
    if v >= 0 { LeMul(0, v / u, u); }
  }

  /** A multiple of `w * u` is `w` times a multiple of `u`. */
  lemma CommonFactor(y: nat, w: nat, u: nat)
    requires w > 0 && u > 0 && w * u > 0 && y % (w * u) == 0
    ensures y % w == 0 && y / w >= 0 && y / w * w == y && y / w % u == 0
  {
    var k := y / (w * u);
    assert y == k * (w * u) == (k * u) * w;
    MultipleMod(k * u, w);
    MultipleMod(k, u);
    FloorMultiple(y, w);
  }

  lemma MagnitudeMeetsSpec(v: nat, u: nat, m: Mode)
    requires u > 0
    ensures RoundMagnitude(v, u, m) >= 0
    ensures IsRounded(v, u, m, RoundMagnitude(v, u, m))
  {
    FloorMultiple(v, u);
    NextMultiple(v - v % u, u);
  }

  lemma RoundMeetsSpec(v: int, u: nat, m: Mode)
    requires u > 0
    ensures IsRounded(v, u, m, Round(v, u, m))
  {
    MagnitudeMeetsSpec(Abs(v), u, m);
    var x := RoundMagnitude(Abs(v), u, m);
    NegativeMultiple(x, u);
  }

  /** Rounding is exactly its specification: sound and complete, all modes, all signs. */
  lemma RoundIsExactlySpec(v: int, u: nat, m: Mode, x: int)
    requires u > 0
    ensures x == Round(v, u, m) <==> IsRounded(v, u, m, x)
  {
    RoundMeetsSpec(v, u, m);
    var y := Round(v, u, m);
    if IsRounded(v, u, m, x) && x != y {
      var lo, hi := Min(x, y), Max(x, y);
      MultiplesApart(lo, hi, u);
      NextMultiple(lo, u);
      if x < y { SpecsAgree(v, u, m, x, y); } else { SpecsAgree(v, u, m, y, x); }
    }
  }

  /** Two candidates that both meet the specification cannot be `u` or more apart. */
  lemma SpecsAgree(v: int, u: nat, m: Mode, x: int, y: int)
    requires u > 0 && IsRounded(v, u, m, x) && IsRounded(v, u, m, y)
    requires y == x + u ==> y / u == x / u + 1
    ensures y < x + u
  {
  }

  lemma RoundMagnitudeMonotone(v: nat, w: nat, u: nat, m: Mode)
    requires u > 0 && v <= w
    ensures RoundMagnitude(v, u, m) <= RoundMagnitude(w, u, m)
  {
    FloorMultiple(v, u);
    FloorMultiple(w, u);
    var a, b := v - v % u, w - w % u;
    if a < b { MultiplesApart(a, b, u); } else if b < a { MultiplesApart(b, a, u); }
  }

  lemma RoundMonotone(v: int, w: int, u: nat, m: Mode)
    requires u > 0 && v <= w
    ensures Round(v, u, m) <= Round(w, u, m)
  {
    MagnitudeMeetsSpec(Abs(v), u, m);
    MagnitudeMeetsSpec(Abs(w), u, m);
    if v >= 0 {
      RoundMagnitudeMonotone(v, w, u, m);
    } else if w < 0 {
      RoundMagnitudeMonotone(-w, -v, u, m);
    }
  }

  lemma RoundFixesMultiples(x: int, u: nat, m: Mode)
    requires u > 0 && x % u == 0
    ensures Round(x, u, m) == x
  {
    NegativeMultiple(x, u);
  }

  // ---- two stages against one ----

  /** Rounding at the fine quantum `u` and then at the coarse quantum `c`, each in its mode. */
  function TwoStage(v: int, u: nat, fine: Mode, c: nat, coarse: Mode): int
    requires u > 0 && c > 0
  {
    Round(Round(v, u, fine), c, coarse)
  }

  /** A multiple of the coarse quantum is a multiple of the fine one. */
  lemma CoarseIsFine(x: int, u: nat, c: nat)
    requires u > 0 && c > 0 && c % u == 0 && x % c == 0
    ensures x % u == 0
  {
    var k := c / u;
    assert c == k * u;
    assert x == x / c * c == (x / c * k) * u;
    MultipleMod(x / c * k, u);
  }

  /** Remainder and quotient of anything in [b, b + c) for a multiple `b` of `c`. */
  lemma InsideMod(b: int, c: nat, x: int)
    requires c > 0 && b % c == 0 && b <= x < b + c
    ensures x % c == x - b && x / c == b / c
  {
    assert x == b / c * c + (x - b);
    DivModUnique(x, c, b / c, x - b);
  }

  /** Rounding never carries a value across a multiple of its quantum. */
  lemma MagnitudeRespects(v: nat, x: nat, u: nat, m: Mode)
    requires u > 0 && x % u == 0
    ensures v <= x ==> RoundMagnitude(v, u, m) <= x
    ensures v >= x ==> RoundMagnitude(v, u, m) >= x
  {
    RoundFixesMultiples(x, u, m);
    if v <= x { RoundMagnitudeMonotone(v, x, u, m); }
    if v >= x { RoundMagnitudeMonotone(x, v, u, m); }
  }

  /** With `b` the coarse multiple below `v`, fine rounding of `v` stays in [b, b + c], and
      both `v` and the result are located by how far they are from `b`. */
  lemma FineStaysInside(v: nat, u: nat, c: nat, m: Mode) returns (b: nat, i: nat)
    requires u > 0 && c > 0 && c % u == 0
    ensures b == v - v % c && i == RoundMagnitude(v, u, m)
    ensures b <= v < b + c && v / c == b / c && v % c == v - b
    ensures b % u == 0 && b <= i <= b + c
    ensures i < b + c ==> i / c == b / c && i % c == i - b
    ensures i == b + c ==> i / c == b / c + 1 && i % c == 0
  {
    FloorMultiple(v, c);
    b := v - v % c;
    MagnitudeMeetsSpec(v, u, m);
    i := RoundMagnitude(v, u, m);
    NextMultiple(b, c);
    CoarseIsFine(b, u, c);
    CoarseIsFine(b + c, u, c);
    MagnitudeRespects(v, b, u, m);
    MagnitudeRespects(v, b + c, u, m);
    if i < b + c { InsideMod(b, c, i); }
  }

  /** Directed rounding loses nothing by being done in two stages. */
  lemma DirectedTwoStage(v: int, u: nat, c: nat, m: Mode)
    requires u > 0 && c > 0 && c % u == 0 && (m == Down || m == Up)
    ensures TwoStage(v, u, m, c, m) == Round(v, c, m)
  {
    var i := DirectedMagnitude(Abs(v), u, c, m);
    var single := RoundMagnitude(Abs(v), c, m);
    assert i >= 0;
    assert Round(v, u, m) == if v < 0 then 0 - i else i;
  }

  lemma DirectedMagnitude(v: nat, u: nat, c: nat, m: Mode) returns (i: int)
    requires u > 0 && c > 0 && c % u == 0 && (m == Down || m == Up)
    ensures i == RoundMagnitude(v, u, m) >= 0
    ensures RoundMagnitude(i, c, m) == RoundMagnitude(v, c, m)
  {
    var b;
    b, i := FineStaysInside(v, u, c, m);
    FloorMultiple(v, u);
  }

  predicate IsHalf(m: Mode) { m == HalfUp || m == HalfEven }

  /** Half modes do lose.  Between different quanta the first stage may land on a tie that `v`
      was not: its magnitude `i` lies half way between two coarse multiples, and the coarse tie
      rule sends it away from the side on which `v` lies.  At one quantum the first stage
      decides a tie of `v`, and the two modes decide it differently above an even multiple. */
  predicate FalseTie(v: int, u: nat, fine: Mode, c: nat, coarse: Mode)
    requires u > 0 && c > 0
  {
    var i := RoundMagnitude(Abs(v), u, fine);
    if c == u then fine != coarse && 2 * (Abs(v) % u) == u && Abs(v) / u % 2 == 0
    else 2 * (i % c) == c && if coarse == HalfUp || i / c % 2 == 1 then Abs(v) < i else Abs(v) > i
  }

  /** For half modes, which need not be the same, the two stages equal one rounding exactly
      when there is no false tie.  Scales are powers of ten, so the coarse quantum is the fine
      one or an even multiple. */
  lemma HalfTwoStage(v: int, u: nat, fine: Mode, c: nat, coarse: Mode)
    requires u > 0 && c > 0 && IsHalf(fine) && IsHalf(coarse)
    requires c == u || c % (2 * u) == 0
    ensures TwoStage(v, u, fine, c, coarse) == Round(v, c, coarse) <==> !FalseTie(v, u, fine, c, coarse)
  {
    var i := RoundMagnitude(Abs(v), u, fine);
    MagnitudeMeetsSpec(Abs(v), u, fine);
    ByMagnitude(v, u, fine, c, coarse);
    if c == u {
      RoundFixesMultiples(i, u, coarse);
      FloorMultiple(Abs(v), u);
    } else {
      EvenMultiple(c, u);
      HalfTwoStageEven(Abs(v), u, fine, c, c / 2, coarse);
    }
  }

  /** Both ways of rounding keep the sign, so they agree when the magnitudes do. */
  lemma ByMagnitude(v: int, u: nat, fine: Mode, c: nat, coarse: Mode)
    requires u > 0 && c > 0 && RoundMagnitude(Abs(v), u, fine) >= 0
    ensures TwoStage(v, u, fine, c, coarse) == Round(v, c, coarse) <==>
      RoundMagnitude(RoundMagnitude(Abs(v), u, fine), c, coarse) == RoundMagnitude(Abs(v), c, coarse)
  {
    var i := RoundMagnitude(Abs(v), u, fine);
    RoundFixesMultiples(0, c, coarse);
    assert Round(v, u, fine) == if v < 0 then 0 - i else i;
  }

  lemma EvenMultiple(c: nat, u: nat)
    requires u > 0 && c % (2 * u) == 0
    ensures c % u == 0 && (c / 2) % u == 0 && c / 2 * 2 == c
  {
    var k := c / (2 * u);
    assert c == k * (2 * u) == (2 * k) * u == 2 * (k * u);
    MultipleMod(2 * k, u);
    MultipleMod(k, u);
  }

  lemma HalfTwoStageEven(v: nat, u: nat, fine: Mode, c: nat, h: nat, coarse: Mode)
    requires u > 0 && c > 0 && c != u && IsHalf(fine) && IsHalf(coarse)
    requires c % u == 0 && h % u == 0 && 2 * h == c
    ensures RoundMagnitude(v, u, fine) >= 0
    ensures RoundMagnitude(RoundMagnitude(v, u, fine), c, coarse) == RoundMagnitude(v, c, coarse)
       <==> !FalseTie(v, u, fine, c, coarse)
  {
    var b, i := FineStaysInside(v, u, c, fine);
    SumMultiple(b, h, u);
    MagnitudeRespects(v, b + h, u, fine);
  }

  lemma SumMultiple(a: int, b: int, u: nat)
    requires u > 0 && a % u == 0 && b % u == 0
    ensures (a + b) % u == 0
  {
    assert a + b == (a / u + b / u) * u;
    MultipleMod(a / u + b / u, u);
  }

  /** The quanta of a valid policy are related as the lemmas above need. */
  lemma PolicyQuanta(p: Policy)
    requires ValidPolicy(p)
    ensures var u, c := Quantum(p.intermediateScale), Quantum(p.currencyScale);
      c % u == 0 && (c == u || c % (2 * u) == 0)
  {
    ScaleQuanta(18 - p.intermediateScale, p.intermediateScale - p.currencyScale);
  }

  lemma ScaleQuanta(a: nat, d: nat)
    ensures Pow10(a + d) % Pow10(a) == 0
    ensures Pow10(a + d) == Pow10(a) || Pow10(a + d) % (2 * Pow10(a)) == 0
  {
    Pow10Add(d, a);
    var u := Pow10(a);
    if d == 0 {
      MultipleMod(1, u);
    } else {
      var e := Pow10(d - 1);
      assert Pow10(d) == 10 * e;
      EvenlyDivides(e, u);
    }
  }

  lemma EvenlyDivides(e: nat, u: nat)
    requires u > 0
    ensures (10 * e * u) % u == 0 && (10 * e * u) % (2 * u) == 0
  {
    assert 10 * e * u == (5 * e) * (2 * u);
    MultipleMod(10 * e, u);
    MultipleMod(5 * e, 2 * u);
  }

  // ---- the two stages of a policy ----

  /** For every valid policy with half modes, equal or not, and every amount whose first stage
      fits: the second stage gives what rounding the amount once would give, errors included,
      exactly when there is no false tie. */
  lemma PolicyTwoStage(p: Policy, v: int)
    requires ValidPolicy(p) && IsHalf(p.intermediateMode) && IsHalf(p.finalMode) && Intermediate(p, v).Ok?
    ensures Final(p, Intermediate(p, v).value) == Final(p, v) <==>
      !FalseTie(v, Quantum(p.intermediateScale), p.intermediateMode, Quantum(p.currencyScale), p.finalMode)
  {
    var u, c := Quantum(p.intermediateScale), Quantum(p.currencyScale);
    PolicyQuanta(p);
    HalfTwoStage(v, u, p.intermediateMode, c, p.finalMode);
    if TwoStage(v, u, p.intermediateMode, c, p.finalMode) != Round(v, c, p.finalMode) {
      OneStays(v, u, p.intermediateMode, c, p.finalMode);
    }
  }

  /** Where they differ, one of the two results is no larger than the first stage. */
  lemma OneStays(v: int, u: nat, fine: Mode, c: nat, coarse: Mode)
    requires u > 0 && c > 0 && c % u == 0
    requires TwoStage(v, u, fine, c, coarse) != Round(v, c, coarse)
    ensures Abs(TwoStage(v, u, fine, c, coarse)) <= Abs(Round(v, u, fine))
         || Abs(Round(v, c, coarse)) <= Abs(Round(v, u, fine))
  {
    var b, i := FineStaysInside(Abs(v), u, c, fine);
    ByMagnitude(v, u, fine, c, coarse);
    MagnitudeMeetsSpec(i, c, coarse);
    MagnitudeMeetsSpec(Abs(v), c, coarse);
    FloorMultiple(i, c);
  }

  /** 2.4949, with three intermediate digits and two currency digits, both half up. */
  const SHARP := Policy(2, 3, HalfUp, HalfUp)

  /** 2.4949 becomes 2.495 and then 2.50, although rounded once it is 2.49. */
  lemma HalfTwoStageCanDiffer()
    ensures ValidPolicy(SHARP)
    ensures Intermediate(SHARP, 2_494_900_000_000_000_000) == Ok(2_495_000_000_000_000_000)
    ensures Final(SHARP, 2_495_000_000_000_000_000) == Ok(2_500_000_000_000_000_000)
    ensures Final(SHARP, 2_494_900_000_000_000_000) == Ok(2_490_000_000_000_000_000)
  {
    PowProduct(4, 4, 10_000, 10_000);
    PowProduct(8, 8, 100_000_000, 100_000_000);
    PowProduct(8, 4, 100_000_000, 10_000);
    PowProduct(12, 3, 1_000_000_000_000, 1_000);
  }
}
