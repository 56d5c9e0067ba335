/** decimal_text: the one text of a decimal, whatever its exponent, trailing zeros or sign of
    zero; and fit_decimal on decimals as they are represented. */
module DecimalText {
  import opened Decimals

  /** A finite decimal: sign, coefficient, exponent. */
  datatype Dec = Dec(negative: bool, coefficient: nat, exponent: int)

  function Signed(d: Dec): int { if d.negative then -(d.coefficient as int) else d.coefficient }

  /** Numeric equality, over the common denominator 10^k. */
  predicate SameValue(a: Dec, b: Dec) {
    var k := Max(0, Max(-a.exponent, -b.exponent));
    Signed(a) * Pow10(a.exponent + k) == Signed(b) * Pow10(b.exponent + k)
  }

  // ---- fit_decimal ----

  function Width(n: nat): (w: nat)
    ensures w >= 1
  {
    if n < 10 then 1 else 1 + Width(n / 10)
  }

  /** Decimal.normalize on a non-zero decimal: no trailing zeros in the coefficient. */
  function Normalize(d: Dec): (r: Dec)
    ensures r.exponent >= d.exponent && (d.coefficient > 0 ==> r.coefficient > 0)
    decreases d.coefficient
  {
    if d.coefficient > 0 && d.coefficient % 10 == 0 then
      Normalize(Dec(d.negative, d.coefficient / 10, d.exponent + 1))
    else d
  }

  /** fit_decimal: a zero keeps its exponent. */
  predicate FitsSchema(d: Dec) {
    var n := if d.coefficient == 0 then d else Normalize(d);
    var fractionalDigits := Max(0, -n.exponent);
    var integerDigits := if n.coefficient == 0 then 1 else Max(1, n.exponent + Width(n.coefficient));
    fractionalDigits <= 18 && integerDigits <= 58
  }

  // ---- digits ----

  function Digit(d: nat): char requires d < 10 { ('0' as int + d) as char }

  predicate IsDigit(c: char) { '0' <= c <= '9' }

  function DigitValue(c: char): (d: nat)
    requires IsDigit(c)
    ensures d < 10 && Digit(d) == c
  {
    c as int - '0' as int
  }

  /** The last `w` digits of `n`, with leading zeros. */
  function Fixed(n: nat, w: nat): (s: string)
    ensures |s| == w && forall c <- s :: IsDigit(c)
  {
    if w == 0 then "" else Fixed(n / 10, w - 1) + [Digit(n % 10)]
  }

  function Digits(n: nat): (s: string)
    ensures |s| >= 1 && forall c <- s :: IsDigit(c)
  {
    Fixed(n, Width(n))
  }

  function Zeros(k: nat): (s: string) ensures |s| == k { seq(k, i => '0') }

  /** str.rstrip of one character. */
  function RStrip(s: string, c: char): string {
    if s != "" && s[|s| - 1] == c then RStrip(s[..|s| - 1], c) else s
  }

  // ---- decimal_text ----

  function Sign(negative: bool): string { if negative then "-" else "" }

  /** format(value, "f"). */
  function FixedPoint(d: Dec): string {
    var sign := Sign(d.negative);
    if d.exponent >= 0 then
      sign + (if d.coefficient == 0 then "0" else Digits(d.coefficient) + Zeros(d.exponent))
    else
      var k: nat := -d.exponent;
      var w: nat := Max(Width(d.coefficient), k + 1);
      var digits := Fixed(d.coefficient, w);
      sign + digits[..w - k] + "." + digits[w - k..]
  }

  function Strip(text: string): string {
    var stripped := if '.' in text then RStrip(RStrip(text, '0'), '.') else text;
    if stripped == "" || stripped == "-0" then "0" else stripped
  }

  function DecimalText(d: Dec): Result<string> {
    if FitsSchema(d) then Ok(Strip(FixedPoint(d))) else Err(DecimalOverflow)
  }

  // ---- reading plain notation back ----

  function ToNat(s: string): nat
    requires forall c <- s :: IsDigit(c)
  {
    if s == "" then 0
    else assert s[|s| - 1] in s; 10 * ToNat(s[..|s| - 1]) + DigitValue(s[|s| - 1])
  }

  predicate AllDigits(s: string) { forall c <- s :: IsDigit(c) }

  function PointIn(s: string, i: nat): (p: nat)
    requires i <= |s|
    ensures i <= p <= |s| && (p < |s| ==> s[p] == '.') && forall j :: i <= j < p ==> s[j] != '.'
    decreases |s| - i
  {
    if i == |s| || s[i] == '.' then i else PointIn(s, i + 1)
  }

  /** Digits with an optional fraction. */
  function ParseDigits(negative: bool, body: string): Option<Dec> {
    var p := PointIn(body, 0);
    var whole := body[..p];
    var fraction := if p < |body| then body[p + 1..] else "";
    if whole + fraction == "" || !AllDigits(whole + fraction) then None
    else Some(Dec(negative, ToNat(whole + fraction), 0 - |fraction|))
  }

  /** The Decimal constructor on an optional sign, digits, and an optional fraction. */
  function Parse(t: string): Option<Dec> {
    if t != "" && t[0] == '-' then ParseDigits(true, t[1..]) else ParseDigits(false, t)
  }

  // ---- shifting digits ----

  /** n * 10^k */
  function Up(n: nat, k: nat): nat { if k == 0 then n else 10 * Up(n, k - 1) }

  /** n / 10^k, rounded down */
  function Down(n: nat, k: nat): nat { if k == 0 then n else Down(n / 10, k - 1) }

  lemma {:induction false} UpIsTimes(n: nat, k: nat)
    ensures Up(n, k) == n * Pow10(k)
  {
    if k > 0 {
      UpIsTimes(n, k - 1);
      assert n * Pow10(k) == 10 * (n * Pow10(k - 1));
    }
  }

  lemma {:induction false} UpAgain(n: nat, j: nat, k: nat)
    ensures Up(Up(n, j), k) == Up(n, j + k)
  {
    if k > 0 { UpAgain(n, j, k - 1); }
  }

  lemma {:induction false} UpSum(a: nat, b: nat, k: nat)
    ensures Up(a + b, k) == Up(a, k) + Up(b, k)
  {
    if k > 0 { UpSum(a, b, k - 1); }
  }

  lemma {:induction false} UpInjective(a: nat, b: nat, k: nat)
    ensures Up(a, k) == Up(b, k) ==> a == b
  {
    if k > 0 { UpInjective(a, b, k - 1); }
  }

  lemma {:induction false} DownUp(n: nat, k: nat, j: nat)
    ensures Down(Up(n, j), k + j) == Down(n, k)
  {
    if j > 0 { DownUp(n, k, j - 1); }
  }

  lemma {:induction false} DownZero(k: nat)
    ensures Down(0, k) == 0
  {
    if k > 0 { DownZero(k - 1); }
  }

  lemma {:induction false} WidthBound(n: nat, w: nat)
    ensures w >= 1 ==> (Width(n) <= w <==> n < Pow10(w))
    decreases w
  {
    if w == 1 { assert Pow10(1) == 10 * Pow10(0); }
    if w > 1 {
      assert Pow10(w) == 10 * Pow10(w - 1);
      WidthBound(n / 10, w - 1);
    }
  }

  lemma {:induction false} WidthUp(n: nat, j: nat)
    requires n > 0
    ensures Up(n, j) > 0 && Width(Up(n, j)) == Width(n) + j
  {
    if j > 0 { WidthUp(n, j - 1); }
  }

  lemma {:induction false} WidthDown(n: nat, k: nat)
    ensures Width(Down(n, k)) == Max(Width(n) - k, 1)
    decreases k
  {
    if k > 0 {
      WidthDown(n / 10, k - 1);
    }
  }

  lemma {:induction false} DownWidth(n: nat)
    ensures Down(n, Width(n)) == 0
  {
    if n >= 10 { DownWidth(n / 10); }
  }

  // ---- the value in units of 10^-p ----

  /** The decimals whose value is a whole number of units. */
  predicate Aligned(p: nat, d: Dec) {
    if d.exponent + p >= 0 then true
    else var k: nat := 0 - p - d.exponent; Up(Down(d.coefficient, k), k) == d.coefficient
  }

  function Units(p: nat, d: Dec): nat {
    if d.exponent + p >= 0 then Up(d.coefficient, d.exponent + p) else Down(d.coefficient, 0 - p - d.exponent)
  }

  function SignedUnits(p: nat, d: Dec): int { if d.negative then 0 - Units(p, d) else Units(p, d) }

  lemma {:induction false} NormalizeKeeps(d: Dec)
    ensures var r := Normalize(d);
      d.coefficient == Up(r.coefficient, r.exponent - d.exponent)
      && (r.coefficient > 0 ==> r.coefficient % 10 != 0)
    decreases d.coefficient
  {
    if d.coefficient > 0 && d.coefficient % 10 == 0 {
      NormalizeKeeps(Dec(d.negative, d.coefficient / 10, d.exponent + 1));
    }
  }

  /** fit_decimal accepts exactly the aligned decimals below the schema bound, and of the zeros
      those with at most 18 fractional digits: the integers of this model that Fits accepts. */
  lemma FitsExactly(d: Dec)
    ensures FitsSchema(d) <==> if d.coefficient == 0 then d.exponent >= -18 else Aligned(18, d) && Fits(Units(18, d))
  {
    if d.coefficient > 0 {
      var n := Normalize(d);
      NormalizeKeeps(d);
      assert n.coefficient > 0;
      NormalizedUnits(18, d, n);
      if n.exponent >= -18 { BoundDigits(n.coefficient, n.exponent); }
    }
  }

  /** A decimal is aligned exactly when its normal form has few enough places. */
  lemma NormalizedUnits(p: nat, d: Dec, n: Dec)
    requires n.exponent >= d.exponent && n.coefficient % 10 != 0
    requires d.coefficient == Up(n.coefficient, n.exponent - d.exponent)
    ensures Aligned(p, d) <==> n.exponent + p >= 0
    ensures n.exponent + p >= 0 ==> Units(p, d) == Up(n.coefficient, n.exponent + p)
  {
    var c, j := n.coefficient, n.exponent - d.exponent;
    if d.exponent + p >= 0 {
      UpAgain(c, j, d.exponent + p);
    } else {
      var k: nat := 0 - p - d.exponent;
      if n.exponent + p >= 0 {
        UpAgain(c, n.exponent + p, k);
        DownUp(Up(c, n.exponent + p), 0, k);
      } else {
        NotAligned(c, j, k);
      }
    }
  }

  /** A coefficient without trailing zeros has no larger power of ten than its shift. */
  lemma NotAligned(c: nat, j: nat, k: nat)
    requires c % 10 != 0 && k > j
    ensures Up(Down(Up(c, j), k), k) != Up(c, j)
  {
    DownUp(c, k - j, j);
    var q := Down(c, k - j);
    UpAgain(q, k - j, j);
    UpInjective(Up(q, k - j), c, j);
  }

  /** At most 58 integer digits, said of the value. */
  lemma BoundDigits(c: nat, e: int)
    requires c > 0 && e >= -18
    ensures Max(1, e + Width(c)) <= 58 <==> Fits(Up(c, e + 18))
  {
    WidthUp(c, e + 18);
    LimitIsPow10();
    WidthBound(Up(c, e + 18), 76);
  }

  // ---- digit strings ----

  lemma {:induction false} FixedSplits(n: nat, a: nat, b: nat)
    ensures Fixed(n, a + b) == Fixed(Down(n, b), a) + Fixed(n, b)
    decreases b
  {
    if b == 0 {
      assert Fixed(n, a) + "" == Fixed(n, a);
    } else {
      FixedSplits(n / 10, a, b - 1);
      var last := [Digit(n % 10)];
      assert Fixed(n, a + b) == Fixed(n / 10, a + (b - 1)) + last;
      assert Fixed(n, b) == Fixed(n / 10, b - 1) + last;
    }
  }

  lemma {:induction false} FixedUp(n: nat, w: nat, j: nat)
    ensures Fixed(Up(n, j), w + j) == Fixed(n, w) + Zeros(j)
    decreases j
  {
    if j == 0 {
      assert Fixed(n, w) + Zeros(0) == Fixed(n, w);
    } else {
      FixedUp(n, w, j - 1);
      assert Zeros(j) == Zeros(j - 1) + ['0'];
    }
  }

  lemma {:induction false} RStripAppend(s: string, t: string, c: char)
    ensures RStrip(t, c) != "" ==> RStrip(s + t, c) == s + RStrip(t, c)
    ensures RStrip(t, c) == "" ==> RStrip(s + t, c) == RStrip(s, c)
    decreases |t|
  {
    if t != "" && t[|t| - 1] == c {
      RStripAppend(s, t[..|t| - 1], c);
      assert (s + t)[..|s + t| - 1] == s + t[..|t| - 1];
    } else if t == "" {
      assert s + t == s;
    }
  }

  lemma {:induction false} RStripZeros(k: nat)
    ensures RStrip(Zeros(k), '0') == ""
  {
    if k > 0 {
      RStripZeros(k - 1);
      assert Zeros(k)[..k - 1] == Zeros(k - 1);
    }
  }

  /** Reading digits undoes writing them, up to the digits that were not written. */
  lemma {:induction false} ToNatFixed(n: nat, w: nat)
    ensures Up(Down(n, w), w) + ToNat(Fixed(n, w)) == n
    decreases w
  {
    if w > 0 {
      ToNatFixed(n / 10, w - 1);
      assert Fixed(n, w)[..w - 1] == Fixed(n / 10, w - 1);
    }
  }

  lemma ToNatDigits(n: nat)
    ensures ToNat(Digits(n)) == n
  {
    ToNatFixed(n, Width(n));
    DownWidth(n);
    UpIsTimes(0, Width(n));
  }

  lemma {:induction false} ToNatAppend(s: string, t: string)
    requires AllDigits(s) && AllDigits(t)
    ensures AllDigits(s + t) && ToNat(s + t) == Up(ToNat(s), |t|) + ToNat(t)
    decreases |t|
  {
    if t == "" {
      assert s + t == s;
    } else {
      ToNatAppend(s, t[..|t| - 1]);
      assert (s + t)[..|s + t| - 1] == s + t[..|t| - 1];
    }
  }

  lemma {:induction false} ToNatStripped(s: string)
    requires AllDigits(s)
    ensures RStrip(s, '0') <= s && AllDigits(RStrip(s, '0'))
    ensures ToNat(s) == Up(ToNat(RStrip(s, '0')), |s| - |RStrip(s, '0')|)
  {
    if s != "" && s[|s| - 1] == '0' { ToNatStripped(s[..|s| - 1]); }
  }

  // ---- the text of a value ----

  function WithPoint(f: string): string { if f == "" then "" else "." + f }

  function Assemble(negative: bool, whole: string, fraction: string): string {
    Sign(negative) + (whole + WithPoint(fraction))
  }

  /** The digits of `u` units before and after the point. */
  function Whole(p: nat, u: nat): string { Digits(Down(u, p)) }

  function Fraction(p: nat, u: nat): string { RStrip(Fixed(u, p), '0') }

  lemma PartsAreDigits(p: nat, u: nat)
    ensures Whole(p, u) != "" && AllDigits(Whole(p, u)) && AllDigits(Fraction(p, u)) && |Fraction(p, u)| <= p
  {
    ToNatStripped(Fixed(u, p));
  }

  /** The text that `u` units have: no sign on zero, no leading zeros, no trailing zeros. */
  function TextOfUnits(p: nat, negative: bool, u: nat): string {
    Assemble(negative && u != 0, Whole(p, u), Fraction(p, u))
  }

  /** The digits of the two parts are the digits of the units. */
  lemma PartsValue(p: nat, u: nat)
    ensures AllDigits(Whole(p, u) + Fraction(p, u)) && |Fraction(p, u)| <= p
    ensures Up(ToNat(Whole(p, u) + Fraction(p, u)), p - |Fraction(p, u)|) == u
  {
    var whole, f := Whole(p, u), Fraction(p, u);
    ToNatStripped(Fixed(u, p));
    ToNatFixed(u, p);
    ToNatDigits(Down(u, p));
    ShiftedValue(whole, f, p - |f|);
    assert |f| + (p - |f|) == p;
  }

  lemma ShiftedValue(whole: string, f: string, j: nat)
    requires AllDigits(whole) && AllDigits(f)
    ensures AllDigits(whole + f)
    ensures Up(ToNat(whole + f), j) == Up(ToNat(whole), |f| + j) + Up(ToNat(f), j)
  {
    ToNatAppend(whole, f);
    UpTwice(ToNat(whole), |f|, ToNat(f), j);
  }

  lemma UpTwice(a: nat, i: nat, b: nat, j: nat)
    ensures Up(Up(a, i) + b, j) == Up(a, i + j) + Up(b, j)
  {
    UpSum(Up(a, i), b, j);
    UpAgain(a, i, j);
  }

  lemma KeepsLast(s: string, c: char)
    requires s != "" && s[|s| - 1] != c
    ensures RStrip(s, c) == s
  {
  }

  /** A point at the very end is dropped; one with digits behind it stays. */
  lemma StripNoFraction(head: string, fraction: string)
    requires head != "" && head[|head| - 1] != '.' && RStrip(fraction, '0') == ""
    ensures RStrip(RStrip(head + "." + fraction, '0'), '.') == head
  {
    RStripAppend(head + ".", fraction, '0');
    KeepsLast(head + ".", '0');
    assert (head + ".")[..|head|] == head;
    KeepsLast(head, '.');
  }

  lemma StripSomeFraction(head: string, fraction: string, f: string)
    requires f == RStrip(fraction, '0') && f != "" && AllDigits(f)
    ensures RStrip(RStrip(head + "." + fraction, '0'), '.') == head + ("." + f)
  {
    RStripAppend(head + ".", fraction, '0');
    assert f[|f| - 1] in f;
    KeepsLast(head + "." + f, '.');
    assert head + "." + f == head + ("." + f);
  }

  predicate Blank(t: string) { t == "" || t == "-0" }

  /** Stripping a text that has a point leaves the whole part and the stripped fraction. */
  lemma StripFraction(negative: bool, whole: string, fraction: string)
    requires whole != "" && AllDigits(whole) && AllDigits(fraction)
    ensures var t := Assemble(negative, whole, RStrip(fraction, '0'));
      Strip(Sign(negative) + whole + "." + fraction) == if Blank(t) then "0" else t
  {
    var head, f := Sign(negative) + whole, RStrip(fraction, '0');
    assert whole[|whole| - 1] in whole && head[|head| - 1] == whole[|whole| - 1];
    ToNatStripped(fraction);
    if f == "" { StripNoFraction(head, fraction); } else { StripSomeFraction(head, fraction, f); }
    assert (head + "." + fraction)[|head|] == '.';
    AssembledHead(negative, whole, f);
  }

  lemma AssembledHead(negative: bool, whole: string, f: string)
    ensures Assemble(negative, whole, f) == Sign(negative) + whole + WithPoint(f)
  {
    assert Sign(negative) + (whole + WithPoint(f)) == Sign(negative) + whole + WithPoint(f);
  }

  /** A text without a point has nothing to strip. */
  lemma StripWhole(negative: bool, whole: string)
    requires whole != "" && AllDigits(whole)
    ensures var t := Sign(negative) + whole; Strip(t) == if Blank(t) then "0" else t
  {
    assert forall c <- Sign(negative) + whole :: IsDigit(c) || c == '-';
  }

  lemma BlankForm(negative: bool, whole: string, f: string)
    requires whole != "" && AllDigits(whole)
    ensures Blank(Assemble(negative, whole, f)) <==> negative && whole == "0" && f == ""
  {
    var rest := WithPoint(f);
    var t := Assemble(negative, whole, f);
    assert whole[0] in whole;
    if negative {
      assert t == "-" + (whole + rest);
      if t == "-0" { assert |whole + rest| == 1 && whole[0] == t[1]; }
    } else {
      assert t == whole + rest && t[0] == whole[0];
    }
  }

  /** Only zero has the whole part "0" and no fraction. */
  lemma ZeroParts(p: nat, u: nat)
    ensures Whole(p, u) == "0" && Fraction(p, u) == "" <==> u == 0
  {
    if u == 0 {
      DownZero(p);
      UpIsTimes(0, p);
      FixedUp(0, 0, p);
      assert Fixed(0, 0) + Zeros(p) == Zeros(p);
      RStripZeros(p);
      DigitsOfZero();
    } else if Whole(p, u) == "0" && Fraction(p, u) == "" {
      PartsValue(p, u);
      assert "0" + "" == "0" && ToNat("0") == 0;
      UpIsTimes(0, p);
    }
  }

  lemma DigitsOfZero()
    ensures Digits(0) == "0"
  {
    assert Digits(0) == Fixed(0, 0) + ['0'];
  }

  /** What is left of the assembled parts once a blank zero is replaced. */
  lemma TextOfParts(p: nat, negative: bool, u: nat)
    ensures var t := Assemble(negative, Whole(p, u), Fraction(p, u));
      TextOfUnits(p, negative, u) == if Blank(t) then "0" else t
  {
    PartsAreDigits(p, u);
    BlankForm(negative, Whole(p, u), Fraction(p, u));
    ZeroParts(p, u);
    if u == 0 { assert Assemble(false, "0", "") == "0"; }
  }

  /** Whole units have no fraction. */
  lemma WholeParts(p: nat, v: nat)
    ensures Whole(p, Up(v, p)) == Digits(v) && Fraction(p, Up(v, p)) == ""
  {
    SameParts(v, 0, p);
  }

  lemma WholeText(p: nat, d: Dec)
    requires d.exponent >= 0
    ensures Strip(FixedPoint(d)) == TextOfUnits(p, d.negative, Units(p, d))
  {
    var v := Up(d.coefficient, d.exponent);
    var text := Sign(d.negative) + Digits(v);
    assert FixedPoint(d) == text by { FixedPointWhole(d); }
    assert Units(p, d) == Up(v, p) by { UpAgain(d.coefficient, d.exponent, p); }
    assert Strip(text) == TextOfUnits(p, d.negative, Up(v, p)) by { TextOfWhole(p, d.negative, v); }
  }

  lemma FixedPointWhole(d: Dec)
    requires d.exponent >= 0
    ensures FixedPoint(d) == Sign(d.negative) + Digits(Up(d.coefficient, d.exponent))
  {
    WholeDigits(d.coefficient, d.exponent);
  }

  lemma TextOfWhole(p: nat, negative: bool, v: nat)
    ensures Strip(Sign(negative) + Digits(v)) == TextOfUnits(p, negative, Up(v, p))
  {
    WholeParts(p, v);
    StripWhole(negative, Digits(v));
    TextOfParts(p, negative, Up(v, p));
    AssembledHead(negative, Digits(v), "");
    assert Sign(negative) + Digits(v) + "" == Sign(negative) + Digits(v);
  }

  lemma WholeDigits(c: nat, e: nat)
    ensures Digits(Up(c, e)) == if c == 0 then "0" else Digits(c) + Zeros(e)
  {
    if c > 0 {
      FixedUp(c, Width(c), e);
      WidthUp(c, e);
    } else {
      UpIsTimes(0, e);
      DigitsOfZero();
    }
  }

  /** The whole part and the fraction of a decimal with a point, said of its units. */
  lemma PartsOfUnits(p: nat, d: Dec, k: nat)
    requires d.exponent == 0 - k && Aligned(p, d)
    ensures Whole(k, d.coefficient) == Whole(p, Units(p, d))
    ensures Fraction(k, d.coefficient) == Fraction(p, Units(p, d))
  {
    if k <= p { SameParts(d.coefficient, k, p - k); } else { SameParts(Units(p, d), p, k - p); }
  }

  /** Shifting digits and point together keeps the parts. */
  lemma SameParts(n: nat, w: nat, j: nat)
    ensures Whole(w + j, Up(n, j)) == Whole(w, n) && Fraction(w + j, Up(n, j)) == Fraction(w, n)
  {
    DownUp(n, w, j);
    SameFraction(n, w, j);
  }

  /** More places add zeros, which are stripped. */
  lemma SameFraction(n: nat, w: nat, j: nat)
    ensures RStrip(Fixed(Up(n, j), w + j), '0') == RStrip(Fixed(n, w), '0')
  {
    FixedUp(n, w, j);
    RStripAppend(Fixed(n, w), Zeros(j), '0');
    RStripZeros(j);
  }

  lemma FixedPointParts(d: Dec, k: nat)
    requires d.exponent == 0 - k && k > 0
    ensures FixedPoint(d) == Sign(d.negative) + Digits(Down(d.coefficient, k)) + "." + Fixed(d.coefficient, k)
  {
    var c := d.coefficient;
    var w: nat := Max(Width(c), k + 1);
    FixedSplits(c, w - k, k);
    WidthDown(c, k);
    assert Fixed(c, w)[..w - k] == Digits(Down(c, k)) && Fixed(c, w)[w - k..] == Fixed(c, k);
  }

  /** The text depends on the value alone. */
  lemma TextIsOfUnits(p: nat, d: Dec)
    requires Aligned(p, d)
    ensures Strip(FixedPoint(d)) == TextOfUnits(p, d.negative, Units(p, d))
  {
    if d.exponent >= 0 {
      WholeText(p, d);
    } else {
      var k: nat := 0 - d.exponent;
      FixedPointParts(d, k);
      PartsOfUnits(p, d, k);
      StripFraction(d.negative, Digits(Down(d.coefficient, k)), Fixed(d.coefficient, k));
      TextOfParts(p, d.negative, Units(p, d));
    }
  }

  // ---- reading it back ----

  lemma PointAt(whole: string, rest: string)
    requires AllDigits(whole) && (rest != "" ==> rest[0] == '.')
    ensures PointIn(whole + rest, 0) == |whole|
  {
    var body := whole + rest;
    forall j | 0 <= j < |whole| ensures body[j] != '.' { assert body[j] in whole; }
    assert rest != "" ==> body[|whole|] == '.';
  }

  lemma ParseParts(negative: bool, whole: string, f: string)
    requires whole != "" && AllDigits(whole) && AllDigits(whole + f)
    ensures ParseDigits(negative, whole + WithPoint(f)) == Some(Dec(negative, ToNat(whole + f), 0 - |f|))
  {
    var body := whole + WithPoint(f);
    PointAt(whole, WithPoint(f));
    assert body[..|whole|] == whole;
    assert f != "" ==> body[|whole| + 1..] == f;
  }

  lemma ParseSigned(negative: bool, body: string)
    requires body != "" && IsDigit(body[0])
    ensures Parse(Sign(negative) + body) == ParseDigits(negative, body)
  {
    assert ("-" + body)[1..] == body && "" + body == body;
  }

  lemma ParseAssembled(negative: bool, whole: string, f: string)
    requires whole != "" && AllDigits(whole) && AllDigits(whole + f)
    ensures Parse(Assemble(negative, whole, f)) == Some(Dec(negative, ToNat(whole + f), 0 - |f|))
  {
    var body := whole + WithPoint(f);
    assert whole[0] in whole && body[0] == whole[0];
    ParseParts(negative, whole, f);
    ParseSigned(negative, body);
  }

  /** Parsing the text of `u` units gives a decimal of `u` units with at most `p` places. */
  lemma ParseUnits(p: nat, negative: bool, u: nat)
    ensures Parse(TextOfUnits(p, negative, u)).Some?
    ensures var d := Parse(TextOfUnits(p, negative, u)).value;
      d.exponent <= 0 && d.exponent + p >= 0 && Units(p, d) == u && d.negative == (negative && u != 0)
  {
    PartsAreDigits(p, u);
    PartsValue(p, u);
    ParseAssembled(negative && u != 0, Whole(p, u), Fraction(p, u));
  }

  // ---- the two laws ----

  /** Numeric equality is equality of signed units. */
  lemma SameValueIsSameUnits(p: nat, a: Dec, b: Dec)
    requires Aligned(p, a) && Aligned(p, b)
    ensures SameValue(a, b) <==> SignedUnits(p, a) == SignedUnits(p, b)
  {
    var k: nat := Max(0, Max(-a.exponent, -b.exponent));
    var x, y := Up(a.coefficient, a.exponent + k), Up(b.coefficient, b.exponent + k);
    UnitsScale(p, a, k);
    UnitsScale(p, b, k);
    UpInjective(x, y, p);
    UpInjective(Units(p, a), Units(p, b), k);
    UpPositive(x, p);
    UpPositive(y, p);
    UpPositive(Units(p, a), k);
    UpPositive(Units(p, b), k);
    SignedProduct(a, k, x);
    SignedProduct(b, k, y);
  }

  lemma SignedProduct(d: Dec, k: nat, x: nat)
    requires d.exponent + k >= 0 && x == Up(d.coefficient, d.exponent + k)
    ensures Signed(d) * Pow10(d.exponent + k) == if d.negative then 0 - x else x
  {
    UpIsTimes(d.coefficient, d.exponent + k);
    assert (0 - d.coefficient) * Pow10(d.exponent + k) == 0 - d.coefficient * Pow10(d.exponent + k);
  }

  lemma {:induction false} UpPositive(n: nat, k: nat)
    ensures n == 0 <==> Up(n, k) == 0
  {
    if k > 0 { UpPositive(n, k - 1); }
  }

  lemma UnitsScale(p: nat, d: Dec, k: nat)
    requires Aligned(p, d) && d.exponent + k >= 0
    ensures Up(Units(p, d), k) == Up(Up(d.coefficient, d.exponent + k), p)
  {
    var c, e := d.coefficient, d.exponent;
    UpAgain(c, e + k, p);
    if e + p >= 0 {
      UpAgain(c, e + p, k);
    } else {
      UpAgain(Units(p, d), 0 - p - e, e + k + p);
    }
  }

  lemma ReadsBack(p: nat, d: Dec)
    requires Aligned(p, d)
    ensures Parse(Strip(FixedPoint(d))).Some?
    ensures var r := Parse(Strip(FixedPoint(d))).value;
      SameValue(r, d) && r.exponent + p >= 0 && Units(p, r) == Units(p, d)
  {
    TextIsOfUnits(p, d);
    ParseUnits(p, d.negative, Units(p, d));
    SameValueIsSameUnits(p, Parse(Strip(FixedPoint(d))).value, d);
  }

  lemma SameStripped(p: nat, a: Dec, b: Dec)
    requires Aligned(p, a) && Aligned(p, b)
    ensures Strip(FixedPoint(a)) == Strip(FixedPoint(b)) <==> SameValue(a, b)
  {
    TextIsOfUnits(p, a);
    TextIsOfUnits(p, b);
    SameValueIsSameUnits(p, a, b);
    SameTextOfUnits(p, a.negative, Units(p, a), b.negative, Units(p, b));
  }

  lemma SameTextOfUnits(p: nat, m: bool, u: nat, n: bool, v: nat)
    ensures TextOfUnits(p, m, u) == TextOfUnits(p, n, v) <==> u == v && (m == n || u == 0)
  {
    ParseUnits(p, m, u);
    ParseUnits(p, n, v);
  }

  /** Printing is invertible: the text of every decimal the schema admits reads back as a
      decimal of the same value, which the schema admits too. */
  lemma RoundTrip(d: Dec)
    requires FitsSchema(d)
    ensures DecimalText(d).Ok? && Parse(DecimalText(d).value).Some?
    ensures var r := Parse(DecimalText(d).value).value; SameValue(r, d) && FitsSchema(r)
  {
    FitsExactly(d);
    ReadsBack(18, d);
    SameUnitsFit(Parse(Strip(FixedPoint(d))).value, d);
  }

  lemma SameUnitsFit(r: Dec, d: Dec)
    requires FitsSchema(d) && r.exponent >= -18 && Units(18, r) == Units(18, d)
    ensures FitsSchema(r)
  {
    FitsExactly(r);
    FitsExactly(d);
    if d.coefficient == 0 {
      UpIsTimes(0, d.exponent + 18);
      UpPositive(r.coefficient, r.exponent + 18);
    }
  }

  /** Printing is canonical: two decimals have the same text exactly when they are equal as
      numbers, whatever their exponents, trailing zeros and signs of zero. */
  lemma SameTextExactly(a: Dec, b: Dec)
    requires FitsSchema(a) && FitsSchema(b)
    ensures DecimalText(a) == DecimalText(b) <==> SameValue(a, b)
  {
    FitsExactly(a);
    FitsExactly(b);
    SameStripped(18, a, b);
  }

  /** Printing what was printed gives the same text again. */
  lemma PrintIsStable(d: Dec)
    requires FitsSchema(d)
    ensures Parse(DecimalText(d).value).Some?
    ensures DecimalText(Parse(DecimalText(d).value).value) == DecimalText(d)
  {
    RoundTrip(d);
    SameTextExactly(Parse(DecimalText(d).value).value, d);
  }

  // ---- the form of the text ----

  lemma {:induction false} LastStripped(s: string, c: char)
    ensures RStrip(s, c) != "" ==> RStrip(s, c)[|RStrip(s, c)| - 1] != c
  {
    if s != "" && s[|s| - 1] == c { LastStripped(s[..|s| - 1], c); }
  }

  lemma {:induction false} FirstDigit(n: nat)
    ensures n > 0 ==> Digits(n)[0] != '0'
  {
    if n >= 10 {
      FirstDigit(n / 10);
      assert Digits(n) == Digits(n / 10) + [Digit(n % 10)];
    } else {
      assert Digits(n) == Fixed(n / 10, 0) + [Digit(n % 10)];
    }
  }

  /** Digits without a leading zero, unless the number is below one; if there is a point, then
      digits that do not end in zero; and a minus sign only before a number that is not zero. */
  ghost predicate PlainForm(t: string, negative: bool, whole: string, fraction: string) {
    && t == (if negative then "-" else "") + (whole + if fraction == "" then "" else "." + fraction)
    && whole != "" && AllDigits(whole) && AllDigits(fraction)
    && (whole[0] == '0' ==> whole == "0")
    && (fraction != "" ==> fraction[|fraction| - 1] != '0')
    && (negative ==> whole != "0" || fraction != "")
  }

  /** Every printed decimal has that form, and the sign is that of its value. */
  lemma TextHasForm(d: Dec) returns (whole: string, fraction: string)
    requires FitsSchema(d)
    ensures DecimalText(d).Ok? && PlainForm(DecimalText(d).value, d.negative && d.coefficient != 0, whole, fraction)
  {
    var p: nat := 18;
    whole, fraction := FormOf(p, d) by { FitsExactly(d); }
  }

  lemma FormOf(p: nat, d: Dec) returns (whole: string, fraction: string)
    requires if d.coefficient == 0 then d.exponent + p >= 0 else Aligned(p, d)
    ensures PlainForm(Strip(FixedPoint(d)), d.negative && d.coefficient != 0, whole, fraction)
  {
    var u := Units(p, d);
    TextIsOfUnits(p, d);
    PartsAreDigits(p, u);
    ZeroParts(p, u);
    LastStripped(Fixed(u, p), '0');
    WholePart(Down(u, p));
    ZeroUnits(p, d);
    whole, fraction := Whole(p, u), Fraction(p, u);
  }

  lemma WholePart(n: nat)
    ensures Digits(n)[0] == '0' ==> Digits(n) == "0"
  {
    FirstDigit(n);
    DigitsOfZero();
  }

  lemma ZeroUnits(p: nat, d: Dec)
    requires d.exponent + p >= 0 || Aligned(p, d)
    ensures Units(p, d) == 0 <==> d.coefficient == 0
  {
    if d.exponent + p >= 0 { UpPositive(d.coefficient, d.exponent + p); }
    else {
      UpPositive(Units(p, d), 0 - p - d.exponent);
      DownZero(0 - p - d.exponent);
    }
  }
}
