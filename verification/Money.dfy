/** Conversions between wire amounts (binary64 major units) and int64 cents. */
module Money {
  import opened Wrappers
  import opened Binary64

  const INT64_MIN: int := -0x8000_0000_0000_0000
  const INT64_MAX: int := 0x7fff_ffff_ffff_ffff
  const TWO_63: int := 0x8000_0000_0000_0000
  const HUNDRED: F64 := Fin(100.0)
  const MAX_REPRESENTABLE_UNITS: real := 92_000_000_000_000_000.0

  /** math.Round on a finite value: nearest integer, ties away from zero. */
  function HalfAway(x: real): int {
    if x >= 0.0 then (x + 0.5).Floor else -((-x + 0.5).Floor)
  }

  function Truncate(x: real): int {
    if x >= 0.0 then x.Floor else -((-x).Floor)
  }

  function MathRound(f: F64): F64 {
    if f.Fin? then Fin(HalfAway(f.v) as real) else f
  }

  /** Go's int64(f) truncates; outside the int64 range its result is the implementation's choice,
      passed here as other. */
  function ToInt64(f: F64, other: int): int {
    if f.Fin? && INT64_MIN <= Truncate(f.v) <= INT64_MAX then Truncate(f.v) else other
  }

  function Cents(value: F64, other: int): int {
    ToInt64(MathRound(Mul(value, HUNDRED)), other)
  }

  function CentsToMajor(cents: int): F64 {
    Div(OfInt(cents), HUNDRED)
  }

  function MajorToCents(major: F64, other: int): int {
    ToInt64(Mul(major, HUNDRED), other)
  }

  function Magnitude(c: int): nat { if c < 0 then -c else c }

  // ----- The product and its conversions -----

  /** Rounding a scaled value is scaling its rounded significand. */
  lemma RoundScaled(z: real, e: int, m: int, x: real)
    requires TWO_52 as real <= z < TWO_53 as real && MIN_EXP <= e < MAX_EXP
    requires x == Times(z, P2(e)) && m == RoundEven(z)
    ensures Round(x) == Fin(Times(m as real, P2(e)))
  {
    P2Inverse(e);
    P2Of52();
    P2Add(52, e);
    P2Add(53, e);
    hide P2, RoundEven;
    InBinade(z, x, P2(e), P2(e + 52), P2(e + 53));
    Rescale(z, P2(e), P2(-e));
    RoundInBinade(x, e);
  }

  lemma InBinade(z: real, x: real, p: real, lo: real, hi: real)
    requires TWO_52 as real <= z < TWO_53 as real && x == Times(z, p) && p > 0.0
    requires lo == TWO_52 as real * p && hi == TWO_53 as real * p
    ensures lo <= Abs(x) < hi
  {
    ScaledOrder(TWO_52 as real, z, p, lo, x);
    ScaledOrder(TWO_53 as real, z, p, hi, x);
    ScaledOrder(0.0, TWO_52 as real, p, 0.0, lo);
  }

  lemma Rescale(z: real, p: real, q: real)
    requires p * q == 1.0
    ensures Times(Times(z, p), q) == z
  {
    assert (z * p) * q == z * (p * q);
  }

  lemma MulHundred(x: real)
    ensures Mul(Fin(x), HUNDRED) == Round(x * 100.0)
  {
  }

  lemma DivHundred(x: real)
    ensures Div(Fin(x), HUNDRED) == Round(x / 100.0)
  {
  }

  lemma WholeNumber(n: int)
    ensures HalfAway(n as real) == n == Truncate(n as real)
  {
  }

  /** An integer when it is one of int64, and the platform's choice otherwise. */
  function Narrow(n: int, other: int): int { if INT64_MIN <= n <= INT64_MAX then n else other }

  lemma Converted(v: real, other: int)
    ensures ToInt64(MathRound(Fin(v)), other) == Narrow(HalfAway(v), other)
    ensures ToInt64(Fin(v), other) == Narrow(Truncate(v), other)
    ensures HalfAway(-v) == -HalfAway(v) && Truncate(-v) == -Truncate(v)
  {
    WholeNumber(HalfAway(v));
    HalfAwayMonotone(v, v);
    if v == 0.0 { assert -v == v; }
    hide HalfAway;
  }

  lemma DivNeg(f: F64)
    ensures Div(f.Neg(), HUNDRED) == Div(f, HUNDRED).Neg()
  {
    hide Round;
    if f.Fin? {
      hide Div;
      DivHundred(f.v);
      DivHundred(-f.v);
      RoundNeg(f.v / 100.0);
      assert (-f.v) / 100.0 == -(f.v / 100.0);
    }
  }

  lemma MulNeg(f: F64)
    ensures Mul(f.Neg(), HUNDRED) == Mul(f, HUNDRED).Neg()
  {
    hide Round;
    if f.Fin? {
      hide Mul;
      MulHundred(f.v);
      MulHundred(-f.v);
      RoundNeg(f.v * 100.0);
      assert (-f.v) * 100.0 == -(f.v * 100.0);
    }
  }

  // ----- Validated amounts -----

  datatype BalanceAmount = BalanceAmount(value: F64, currency: string)

  /** cents is an int64 in the source; ToMoneyInRange shows it stays one. */
  datatype Amount = Amount(cents: int, currency: string)

  datatype MoneyError = BadCurrency | Unrepresentable

  predicate IsUpper(c: char) { 'A' <= c <= 'Z' }

  function NewCurrency(s: string): Result<string, MoneyError> {
    if |s| == 3 && IsUpper(s[0]) && IsUpper(s[1]) && IsUpper(s[2]) then Ok(s) else Err(BadCurrency)
  }

  predicate InCentRange(f: F64) {
    f.Fin? && Abs(f.v) <= MAX_REPRESENTABLE_UNITS
  }

  function ToMoney(a: BalanceAmount, other: int): Result<Amount, MoneyError> {
    match NewCurrency(a.currency)
    case Err(e) => Err(e)
    case Ok(currency) =>
      if !InCentRange(a.value) then Err(Unrepresentable) else Ok(Amount(Cents(a.value, other), currency))
  }

  const MAX_CENTS: int := 9_200_000_000_000_000_000

  lemma P2Of64()
    ensures P2(11) == 2048.0 && P2(64) == 2048.0 * TWO_53 as real
  {
    P2Of52();
    assert P2(11) == 2048.0;
    P2Add(11, 53);
    hide P2;
  }

  lemma MaxCentsExact()
    ensures Round(MAX_CENTS as real) == Fin(MAX_CENTS as real)
    ensures MAX_CENTS as real < P2(64)
  {
    P2Of64();
    hide P2, Round;
    var v := MAX_CENTS as real;
    assert DyadicBy(v, 4492187500000000, 11);
    RoundExact(v);
  }

  /** Inside the guard the product by 100 is finite and stays within 9.2e18. */
  lemma GuardedProduct(x: real)
    requires Abs(x) <= MAX_REPRESENTABLE_UNITS
    ensures Mul(Fin(x), HUNDRED).Fin? && Abs(Mul(Fin(x), HUNDRED).v) <= MAX_CENTS as real
  {
    MulHundred(x);
    MaxCentsExact();
    RoundNeg(MAX_CENTS as real);
    RoundFinite(x * 100.0, 11);
    hide Round, P2, Mul;
    RoundMonotone(x * 100.0, MAX_CENTS as real);
    RoundMonotone(-(MAX_CENTS as real), x * 100.0);
  }

  lemma RoundingInRange(f: F64, other: int)
    requires f.Fin? && Abs(f.v) <= MAX_CENTS as real
    ensures ToInt64(MathRound(f), other) == HalfAway(f.v)
    ensures ToInt64(f, other) == Truncate(f.v)
    ensures -MAX_CENTS <= HalfAway(f.v) <= MAX_CENTS
    ensures -MAX_CENTS <= Truncate(f.v) <= MAX_CENTS
  {
  }

  /** Every accepted amount converts inside int64, whatever the platform does outside it. */
  lemma ToMoneyInRange(a: BalanceAmount, other: int, another: int)
    ensures ToMoney(a, other) == ToMoney(a, another)
    ensures ToMoney(a, other).Ok? ==>
              && -MAX_CENTS <= ToMoney(a, other).value.cents <= MAX_CENTS
              && ToMoney(a, other).value == Amount(Cents(a.value, other), a.currency)
    ensures ToMoney(a, other).Ok? <==>
              && a.value.Fin? && -92_000_000_000_000_000.0 <= a.value.v <= 92_000_000_000_000_000.0
              && |a.currency| == 3 && forall i :: 0 <= i < 3 ==> 'A' <= a.currency[i] <= 'Z'
    ensures ToMoney(a, other).Err? ==>
              (ToMoney(a, other).error == BadCurrency
               <==> !(|a.currency| == 3 && forall i :: 0 <= i < 3 ==> 'A' <= a.currency[i] <= 'Z'))
  {
    if InCentRange(a.value) {
      GuardedProduct(a.value.v);
      hide Mul;
      RoundingInRange(Mul(a.value, HUNDRED), other);
      RoundingInRange(Mul(a.value, HUNDRED), another);
      hide ToInt64, MathRound;
    }
  }

  lemma HalfAwayMonotone(x: real, y: real)
    requires x <= y
    ensures HalfAway(x) <= HalfAway(y)
    ensures HalfAway(-x) == -HalfAway(x)
  {
  }

  /** The conversion is monotone in the wire amount, ... */
  lemma CentsMonotone(x: F64, y: F64, other: int)
    requires InCentRange(x) && InCentRange(y) && x.v <= y.v
    ensures Cents(x, other) <= Cents(y, other)
  {
    hide Mul, Round, ToInt64, MathRound, HalfAway;
    GuardedProduct(x.v);
    GuardedProduct(y.v);
    MulHundred(x.v);
    MulHundred(y.v);
    RoundMonotone(x.v * 100.0, y.v * 100.0);
    HalfAwayMonotone(Mul(x, HUNDRED).v, Mul(y, HUNDRED).v);
    RoundingInRange(Mul(x, HUNDRED), other);
    RoundingInRange(Mul(y, HUNDRED), other);
  }

  /** ... odd, ... */
  lemma CentsOdd(x: F64, other: int)
    requires InCentRange(x)
    ensures Cents(x.Neg(), other) == -Cents(x, other)
  {
    GuardedProduct(x.v);
    MulNeg(x);
    hide Mul, Round;
    var f := Mul(x, HUNDRED);
    HalfAwayMonotone(f.v, f.v);
    RoundingInRange(f, other);
    RoundingInRange(f.Neg(), other);
    hide ToInt64, MathRound, HalfAway;
  }

  /** ... and within half a cent, plus one rounding's relative error, of the exact amount. */
  lemma CentsAccurate(x: F64, other: int)
    requires InCentRange(x)
    ensures Abs(Cents(x, other) as real - x.v * 100.0) <= 0.5 + Times(Abs(x.v * 100.0), P2(-53))
  {
    hide P2, Mul, Round, Times, ToInt64, MathRound, HalfAway;
    GuardedProduct(x.v);
    MulHundred(x.v);
    var f := Mul(x, HUNDRED);
    RoundingInRange(f, other);
    HalfAwayNear(f.v);
    if Abs(x.v * 100.0) < 0.25 {
      RoundQuarter(x.v * 100.0);
      TimesNonneg(Abs(x.v * 100.0), P2(-53));
    } else {
      QuarterNormal();
      RoundRelativeError(x.v * 100.0);
    }
  }

  lemma QuarterNormal()
    ensures P2(MIN_EXP + 52) <= 0.25 == P2(-2)
  {
    assert P2(-2) == 0.25;
    hide P2;
    P2Monotone(MIN_EXP + 52, -2);
  }

  /** Amounts under a quarter of a cent come out as zero cents. */
  lemma RoundQuarter(y: real)
    requires Abs(y) < 0.25 && Round(y).Fin?
    ensures HalfAway(Round(y).v) == 0
  {
    hide Round;
    QuarterNormal();
    hide P2;
    assert Times(1 as real, P2(-2)) == 0.25;
    assert DyadicBy(0.25, 1, -2);
    RoundExact(0.25);
    RoundNeg(0.25);
    RoundMonotone(y, 0.25);
    RoundMonotone(-0.25, y);
  }

  lemma TimesNonneg(a: real, b: real)
    requires a >= 0.0 && b > 0.0
    ensures Times(a, b) >= 0.0
  {
  }

  lemma HalfAwayNear(y: real)
    ensures Abs(HalfAway(y) as real - y) <= 0.5
  {
  }

  // ----- Without the guard -----

  /** The wire amounts whose hundredfold, rounded, lies inside int64. */
  predicate Determined(x: F64) {
    x.Fin? && -(TWO_63 as real) - 1024.0 <= x.v * 100.0 < TWO_63 as real - 512.0
  }

  lemma P2Of11()
    ensures P2(10) == 1024.0 && P2(11) == 2048.0
  {
  }

  /** The products around the ends of int64. */
  lemma EndsOfInt64()
    ensures Round(TWO_63 as real - 512.0) == Fin(TWO_63 as real) == Round(TWO_63 as real + 1024.0)
    ensures Round(TWO_63 as real - 1024.0) == Fin(TWO_63 as real - 1024.0)
    ensures Round(TWO_63 as real + 2048.0) == Fin(TWO_63 as real + 2048.0)
    ensures Representable(TWO_63 as real - 1024.0) && Representable(TWO_63 as real + 2048.0)
  {
    P2Of11();
    var top, above := TWO_53 as real - 0.5, TWO_52 as real + 0.5;
    assert top.Floor == TWO_53 - 1 && above.Floor == TWO_52;
    assert DyadicBy(TWO_63 as real - 1024.0, TWO_53 - 1, 10);
    assert DyadicBy(TWO_63 as real + 2048.0, TWO_52 + 1, 11);
    hide P2, Round;
    RoundScaled(top, 10, TWO_53, TWO_63 as real - 512.0);
    RoundScaled(above, 11, TWO_52, TWO_63 as real + 1024.0);
    RoundExact(TWO_63 as real - 1024.0);
    RoundExact(TWO_63 as real + 2048.0);
  }

  lemma JustBelow(y: real)
    requires TWO_63 as real - 1024.0 <= y < TWO_63 as real - 512.0
    ensures Round(y) == Fin(TWO_63 as real - 1024.0)
  {
    P2Of11();
    hide P2, Round, RoundEven;
    var z := y / 1024.0;
    RoundEvenUnique(z, TWO_53 - 1);
    RoundScaled(z, 10, TWO_53 - 1, y);
  }

  lemma JustAbove(y: real)
    requires TWO_63 as real + 1024.0 < y <= TWO_63 as real + 2048.0
    ensures Round(y) == Fin(TWO_63 as real + 2048.0)
  {
    P2Of11();
    hide P2, Round, RoundEven;
    var z := y / 2048.0;
    RoundEvenUnique(z, TWO_52 + 1);
    RoundScaled(z, 11, TWO_52 + 1, y);
  }

  lemma BelowTop(y: real)
    requires Round(y).Fin?
    ensures y < TWO_63 as real - 512.0 ==> Round(y).v <= TWO_63 as real - 1024.0
    ensures y >= TWO_63 as real - 512.0 ==> Round(y).v >= TWO_63 as real
  {
    EndsOfInt64();
    hide Round;
    if y < TWO_63 as real - 1024.0 {
      RoundMonotone(y, TWO_63 as real - 1024.0);
    } else if y < TWO_63 as real - 512.0 {
      JustBelow(y);
    } else {
      RoundMonotone(TWO_63 as real - 512.0, y);
    }
  }

  lemma AboveBottom(y: real)
    requires Round(y).Fin?
    ensures y > TWO_63 as real + 1024.0 ==> Round(y).v >= TWO_63 as real + 2048.0
    ensures y <= TWO_63 as real + 1024.0 ==> Round(y).v <= TWO_63 as real
  {
    EndsOfInt64();
    hide Round;
    if y <= TWO_63 as real + 1024.0 {
      RoundMonotone(y, TWO_63 as real + 1024.0);
    } else if y <= TWO_63 as real + 2048.0 {
      JustAbove(y);
    } else {
      RoundMonotone(TWO_63 as real + 2048.0, y);
    }
  }

  /** An amount is determined exactly when its product is finite and inside int64. */
  lemma DeterminedProduct(x: F64)
    ensures var f := Mul(x, HUNDRED);
            if Determined(x) then f.Fin? && -(TWO_63 as real) <= f.v < TWO_63 as real
            else !f.Fin? || f.v <= -(TWO_63 as real) - 2048.0 || f.v >= TWO_63 as real
  {
    if x.Fin? {
      MulHundred(x.v);
      hide Mul, Round;
      RoundedInside(x.v * 100.0);
    }
  }

  lemma RoundedInside(y: real)
    ensures if -(TWO_63 as real) - 1024.0 <= y < TWO_63 as real - 512.0 then
              Round(y).Fin? && -(TWO_63 as real) <= Round(y).v < TWO_63 as real
            else !Round(y).Fin? || Round(y).v <= -(TWO_63 as real) - 2048.0 || Round(y).v >= TWO_63 as real
  {
    hide Round;
    RoundNeg(y);
    if -(TWO_63 as real) - 1024.0 <= y < TWO_63 as real - 512.0 { DeterminedFinite(y); }
    if Round(y).Fin? {
      BelowTop(y);
      AboveBottom(-y);
    }
  }

  lemma DeterminedFinite(y: real)
    requires Abs(y) <= TWO_63 as real + 1024.0
    ensures Round(y).Fin?
  {
    P2Of64();
    hide P2;
    RoundFinite(y, 11);
  }

  /** Without the guard a truncated amount is the same on every platform if and only if it is
      determined. */
  lemma TruncationDetermined(x: F64)
    ensures (forall a, b :: MajorToCents(x, a) == MajorToCents(x, b)) <==> Determined(x)
  {
    DeterminedProduct(x);
    var f := Mul(x, HUNDRED);
    hide Mul;
    if f.Fin? { InInt64(f.v); }
    hide Truncate;
    if !Determined(x) { assert MajorToCents(x, 0) == 0 && MajorToCents(x, 1) == 1; }
  }

  lemma InInt64(v: real)
    ensures -(TWO_63 as real) <= v < TWO_63 as real ==> INT64_MIN <= Truncate(v) <= INT64_MAX
    ensures INT64_MIN <= Truncate(v) <= INT64_MAX ==> -(TWO_63 as real) - 1.0 < v < TWO_63 as real
    ensures INT64_MIN <= HalfAway(v) <= INT64_MAX ==> -(TWO_63 as real) - 1.0 < v < TWO_63 as real
    ensures -(TWO_63 as real) <= v <= TWO_63 as real - 1024.0 ==> INT64_MIN <= HalfAway(v) <= INT64_MAX
  {
  }

  /** A quote amount of 10^17 is a finite number and its cents are the platform's choice. */
  lemma UndeterminedQuote(a: int, b: int)
    requires a != b
    ensures Fin(100_000_000_000_000_000.0).Valid()
    ensures !(forall c, d :: MajorToCents(Fin(100_000_000_000_000_000.0), c)
                          == MajorToCents(Fin(100_000_000_000_000_000.0), d))
  {
    P2Of11();
    assert DyadicBy(100_000_000_000_000_000.0, 97_656_250_000_000, 10);
    hide P2, MajorToCents;
    TruncationDetermined(Fin(100_000_000_000_000_000.0));
  }

  /** On every wire amount: if it is determined, truncation is at most a cent nearer to zero than
      rounding and agrees with it exactly when the product's fraction is under one half; if not, both
      conversions leave the result to the platform. */
  lemma TruncationAgainstRounding(x: F64, other: int)
    ensures var f, t, r := Mul(x, HUNDRED), MajorToCents(x, other), Cents(x, other);
            if Determined(x) then
              && f.Fin?
              && (r == t || r == t + (if x.v < 0.0 then -1 else 1))
              && (r == t <==> Abs(f.v) - Abs(f.v).Floor as real < 0.5)
            else t == other == r
  {
    hide Mul, Round, HalfAway, Truncate, ToInt64, MathRound;
    DeterminedProduct(x);
    var f := Mul(x, HUNDRED);
    if Determined(x) {
      MulHundred(x.v);
      SignOfProduct(x.v);
      BelowTop(x.v * 100.0);
      BothConversions(f.v);
    }
    if f.Fin? {
      InInt64(f.v);
      Converted(f.v, other);
    } else {
      NotFinite(f, other);
    }
  }

  lemma NotFinite(f: F64, other: int)
    requires !f.Fin?
    ensures ToInt64(MathRound(f), other) == other == ToInt64(f, other)
  {
  }

  lemma BothConversions(v: real)
    ensures HalfAway(v) == Truncate(v) || HalfAway(v) == Truncate(v) + (if v < 0.0 then -1 else 1)
    ensures HalfAway(v) == Truncate(v) <==> Abs(v) - Abs(v).Floor as real < 0.5
    ensures v == 0.0 ==> HalfAway(v) == Truncate(v)
  {
  }

  lemma SignOfProduct(x: real)
    requires Round(x * 100.0).Fin?
    ensures x >= 0.0 ==> Round(x * 100.0).v >= 0.0
    ensures x < 0.0 ==> Round(x * 100.0).v <= 0.0
  {
    hide Round;
    RoundNeg(x);
    if x >= 0.0 { RoundMonotone(0.0, x * 100.0); } else { RoundMonotone(x * 100.0, 0.0); }
  }
}
