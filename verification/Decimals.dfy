/** Exact decimals as integers.

    A decimal of the released Decimal(76, 18) schema is the integer that counts its
    units of 10^-18.  This module holds the powers of ten, the schema bound, and sums. */
module Decimals {

  datatype Option<+T> = None | Some(value: T)

  datatype Error =
    | InvalidCost
    | InvalidTier
    | DecimalOverflow
    | UnclosedUsage
    | MissingRateCard
    | StaleRevision
    | Conflict
    | OverlappingRateCard
    | UnitMismatch

  datatype Result<+T> = Ok(value: T) | Err(error: Error) {
    predicate IsFailure() { Err? }
    function PropagateFailure<U>(): Result<U> requires Err? { Err(error) }
    function Extract(): T requires Ok? { value }
  }

  function Pow10(n: nat): (p: nat)
    ensures p >= 1
  {
    if n == 0 then 1 else 10 * Pow10(n - 1)
  }

  lemma {:induction false} Pow10Add(m: nat, n: nat)
    ensures Pow10(m + n) == Pow10(m) * Pow10(n)
  {
    if m > 0 { Pow10Add(m - 1, n); }
  }

  lemma Pow10Splits(m: nat, n: nat)
    requires m <= n
    ensures Pow10(n) == Pow10(n - m) * Pow10(m) == Pow10(m) * Pow10(n - m)
    ensures Pow10(m) <= Pow10(n)
  {
    Pow10Add(n - m, m);
    LeMul(1, Pow10(n - m), Pow10(m));
  }

  /** Unscaled units in one whole: 10^18. */
  const ONE: nat := 1_000_000_000_000_000_000

  /** One past the largest magnitude of the schema, 58 integer and 18 fractional digits: 10^76. */
  const LIMIT: nat :=
    10_000_000_000_000_000_000_000_000_000_000_000_000_000_000_000_000_000_000_000_000_000_000_000_000_000

  lemma PowProduct(m: nat, n: nat, a: nat, b: nat)
    requires Pow10(m) == a && Pow10(n) == b
    ensures Pow10(m + n) == a * b
  {
    Pow10Add(m, n);
  }

  lemma OneIsPow10()
    ensures ONE == Pow10(18)
  {
    PowProduct(2, 2, 100, 100);
    PowProduct(4, 4, 10_000, 10_000);
    PowProduct(8, 8, 100_000_000, 100_000_000);
    PowProduct(16, 2, 10_000_000_000_000_000, 100);
  }

  lemma LimitIsPow10()
    ensures LIMIT == Pow10(76)
  {
    OneIsPow10();
    PowProduct(18, 18, ONE, ONE);
    PowProduct(36, 36, ONE * ONE, ONE * ONE);
    PowProduct(72, 4, ONE * ONE * (ONE * ONE), 10_000);
  }

  predicate Fits(v: int) { Abs(v) < LIMIT }

  /** fit_decimal on a value that already has at most 18 fractional digits. */
  function Fit(v: int): Result<int> {
    if Fits(v) then Ok(v) else Err(DecimalOverflow)
  }

  function Abs(x: int): nat { if x < 0 then -x else x }
  function Min(x: int, y: int): int { if x < y then x else y }
  function Max(x: int, y: int): int { if x < y then y else x }

  // ---- multiplication facts the solver does not find by itself ----

  lemma LeMul(a: int, b: int, c: int)
    requires a <= b && c >= 0
    ensures a * c <= b * c && c * a <= c * b
  {
  }

  lemma LtMul(a: int, b: int, c: int)
    requires a < b && c > 0
    ensures a * c < b * c && c * a < c * b
  {
  }

  lemma CancelLt(a: int, b: int, c: int)
    requires a * c < b * c && c > 0
    ensures a < b
  {
    if a >= b { LeMul(b, a, c); }
  }

  lemma CancelLe(a: int, b: int, c: int)
    requires a * c <= b * c && c > 0
    ensures a <= b
  {
    if a > b { LtMul(b, a, c); }
  }

  lemma DivModUnique(a: int, b: nat, q: int, r: int)
    requires b > 0 && a == q * b + r && 0 <= r < b
    ensures a / b == q && a % b == r
  {
    var q', r' := a / b, a % b;
    assert a == q' * b + r';
    if q < q' { LeMul(q + 1, q', b); }
    if q' < q { LeMul(q' + 1, q, b); }
  }

  lemma MultipleMod(k: int, b: nat)
    requires b > 0
    ensures (k * b) % b == 0 && (k * b) / b == k
  {
    DivModUnique(k * b, b, k, 0);
  }

  /** Magnitudes scale with their number. */
  lemma AbsMul(x: int, k: nat)
    ensures Abs(x * k) == Abs(x) * k
  {
    if x < 0 { LeMul(x, 0, k); } else { LeMul(0, x, k); }
  }

  lemma ProductIsNatural(a: nat, b: nat)
    ensures a * b >= 0
  {
    LeMul(0, a, b);
  }

  // ---- sums ----

  function Sum(s: seq<int>): int {
    if s == [] then 0 else s[0] + Sum(s[1..])
  }

  lemma {:induction false} SumAppend(s: seq<int>, x: int)
    ensures Sum(s + [x]) == Sum(s) + x
  {
    if s == [] {
      assert s + [x] == [x];
    } else {
      assert (s + [x])[1..] == s[1..] + [x];
      SumAppend(s[1..], x);
    }
  }

  lemma {:induction false} SumUpdate(s: seq<int>, i: nat, x: int)
    requires i < |s|
    ensures Sum(s[i := x]) == Sum(s) - s[i] + x
  {
    if i == 0 {
      assert s[i := x][1..] == s[1..];
    } else {
      assert s[i := x][1..] == s[1..][i - 1 := x];
      SumUpdate(s[1..], i - 1, x);
    }
  }

  lemma {:induction false} SumScaled(s: seq<int>, t: seq<int>, k: int)
    requires |s| == |t| && forall i :: 0 <= i < |s| ==> t[i] == k * s[i]
    ensures Sum(t) == k * Sum(s)
  {
    if s != [] {
      assert forall i :: 0 <= i < |s[1..]| ==> t[1..][i] == k * s[1..][i];
      SumScaled(s[1..], t[1..], k);
      assert k * (s[0] + Sum(s[1..])) == k * s[0] + k * Sum(s[1..]);
    }
  }

  lemma {:induction false} SumAdd(s: seq<int>, t: seq<int>, r: seq<int>)
    requires |s| == |t| == |r| && forall i :: 0 <= i < |s| ==> r[i] == s[i] + t[i]
    ensures Sum(r) == Sum(s) + Sum(t)
  {
    if s != [] {
      assert forall i :: 0 <= i < |s[1..]| ==> r[1..][i] == s[1..][i] + t[1..][i];
      SumAdd(s[1..], t[1..], r[1..]);
    }
  }

  lemma {:induction false} SumLe(s: seq<int>, t: seq<int>)
    requires |s| == |t| && forall i :: 0 <= i < |s| ==> s[i] <= t[i]
    ensures Sum(s) <= Sum(t)
  {
    if s != [] { SumLe(s[1..], t[1..]); }
  }

  lemma {:induction false} SumNonNegative(s: seq<int>)
    requires forall i :: 0 <= i < |s| ==> s[i] >= 0
    ensures Sum(s) >= 0
    ensures forall i :: 0 <= i < |s| ==> s[i] <= Sum(s)
  {
    if s != [] {
      SumNonNegative(s[1..]);
      forall i | 0 <= i < |s| ensures s[i] <= Sum(s) {
        if i > 0 { assert s[i] == s[1..][i - 1]; }
      }
    }
  }
}
