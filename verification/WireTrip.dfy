/** What a trip over the wire does to an amount of cents: float64(c) / 100 goes out, and the number read
    back is multiplied by 100 again and converted by rounding or by truncating. */
module WireTrip {
  import opened Wrappers
  import opened Binary64
  import opened Money

  function Sign(c: int): int { if c < 0 then -1 else 1 }

  function Signed(c: int, n: int): int { if c < 0 then -n else n }

  // ----- Cents as binary64 holds them -----

  /** By how many bits a magnitude is too long for a 53-bit significand. */
  function Excess(a: nat): nat { if a < TWO_53 then 0 else 1 + Excess(a / 2) }

  /** a / d to the nearest integer, ties to even. */
  function NearestQuotient(a: nat, d: nat): nat
    requires d > 0
  {
    var q, r := a / d, a % d;
    if 2 * r < d || (2 * r == d && q % 2 == 0) then q else q + 1
  }

  function Significand(a: nat): nat { NearestQuotient(a, Pow2(Excess(a))) }

  function Shifted(n: int, j: nat): int { n * Pow2(j) }

  /** The amount that float64(c) stands for. */
  function Held(c: int): int { Signed(c, Shifted(Significand(Magnitude(c)), Excess(Magnitude(c)))) }

  lemma {:induction false} ExcessBracket(a: nat)
    ensures a < Shifted(TWO_53, Excess(a))
    ensures Excess(a) > 0 ==> a >= Shifted(TWO_52, Excess(a))
  {
    if a >= TWO_53 { ExcessBracket(a / 2); }
  }

  lemma {:induction false} ExcessAtMost(a: nat, k: nat)
    requires a < Shifted(TWO_53, k)
    ensures Excess(a) <= k
  {
    if a >= TWO_53 { ExcessAtMost(a / 2, k - 1); }
  }

  lemma RoundEvenIsNearest(a: nat, d: nat)
    requires d > 0
    ensures RoundEven(a as real / d as real) == NearestQuotient(a, d)
  {
    var q, r := a / d, a % d;
    var x, f := a as real / d as real, r as real / d as real;
    assert a as real == q as real * d as real + r as real;
    assert x == q as real + f;
    Fraction(r, d, f);
    assert x.Floor == q;
  }

  lemma Fraction(r: nat, d: nat, f: real)
    requires r < d && f == r as real / d as real
    ensures 0.0 <= f < 1.0
    ensures f < 0.5 <==> 2 * r < d
    ensures f == 0.5 <==> 2 * r == d
  {
    assert f * d as real == r as real;
    ScaledOrder(0.0, f, d as real, 0.0, r as real);
    ScaledOrder(1.0, f, d as real, d as real, r as real);
    ScaledOrder(0.5, f, d as real, 0.5 * d as real, r as real);
    ScaledOrder(f, 0.5, d as real, r as real, 0.5 * d as real);
  }

  /** Dividing by 2^j brings a magnitude into the range of a significand. */
  lemma QuotientInRange(a: nat, d: nat)
    requires d > 0 && TWO_52 * d <= a < TWO_53 * d
    ensures TWO_52 as real <= a as real / d as real < TWO_53 as real
    ensures TWO_52 <= NearestQuotient(a, d) <= TWO_53
    ensures a as real == Times(a as real / d as real, d as real)
  {
    var z := a as real / d as real;
    assert z * d as real == a as real;
    ScaledOrder(TWO_52 as real, z, d as real, (TWO_52 * d) as real, a as real);
    ScaledOrder(TWO_53 as real, z, d as real, (TWO_53 * d) as real, a as real);
    QuotientBounds(a, d, a / d, a % d);
  }

  lemma QuotientBounds(a: int, d: int, q: int, r: int)
    requires d > 0 && a == d * q + r && 0 <= r < d && TWO_52 * d <= a < TWO_53 * d
    ensures TWO_52 <= q < TWO_53
  {
    if q < TWO_52 { SmallerProduct(d, q, TWO_52 - 1); }
    if q >= TWO_53 { SmallerProduct(d, TWO_53, q); }
  }

  lemma SmallerProduct(d: int, p: int, q: int)
    requires d > 0 && p <= q
    ensures d * p <= d * q
  {
  }

  /** float64(a) rounds a magnitude to its significand, at most 2^53, and its exponent, at most 11. */
  lemma HeldMagnitude(a: nat, j: nat, m: nat)
    requires 0 < a <= TWO_63 && j == Excess(a) && m == Significand(a)
    ensures j <= 11 && 0 < m <= TWO_53
    ensures j == 0 ==> m == a < TWO_53
    ensures j > 0 ==> m >= TWO_52
    ensures OfInt(a) == Fin(Times(m as real, P2(j)))
  {
    ExcessBounded(a);
    hide P2, Pow2, Round, RoundEven, Excess, NearestQuotient;
    if j == 0 {
      ShortMagnitude(a);
      IntRepresentable(a);
      RoundExact(a as real);
    } else {
      P2IsPow2(j);
      ExcessBracket(a);
      QuotientInRange(a, Pow2(j));
      RoundEvenIsNearest(a, Pow2(j));
      RoundScaled(a as real / Pow2(j) as real, j, m, a as real);
    }
  }

  lemma ExcessBounded(a: nat)
    requires a <= TWO_63
    ensures Excess(a) <= 11 && (Excess(a) == 0 ==> a < TWO_53)
    ensures P2(0) == 1.0
  {
    assert Shifted(TWO_53, 11) == TWO_53 * 2048;
    ExcessAtMost(a, 11);
  }

  lemma ShortMagnitude(a: nat)
    requires a < TWO_53
    ensures Excess(a) == 0 && Significand(a) == a && Held(a) == a
    ensures forall n :: Shifted(n, 0) == n
  {
    assert Pow2(0) == 1;
  }

  // ----- What one wire round trip does to an amount -----

  const UNITS: int := 25 * 0x1_0000_0000_0000

  /** u doubled until 64 * u hundredths fill a 53-bit significand. */
  function Scaled(u: int): (r: int)
    requires 0 < u < 2 * UNITS
    ensures UNITS <= r < 2 * UNITS
    ensures r != u ==> r % 2 == 0
    decreases UNITS - u
  {
    if u >= UNITS then u else Scaled(2 * u)
  }

  /** How many doublings that takes. */
  function Doublings(u: int): (d: int)
    requires 0 < u < 2 * UNITS
    ensures d >= 0
    decreases UNITS - u
  {
    if u >= UNITS then 0 else 1 + Doublings(2 * u)
  }

  /** By how many last places of the product the two roundings miss the amount scaled to u. */
  function Miss(u: int): (d: int)
    ensures -1 <= d <= 1
  {
    var w := 16 * u % 25;
    if u >= TWO_53 then 0
    else if 9 <= w <= 12 || (w == 8 && u % 2 == 1) then -1
    else if 13 <= w <= 16 || (w == 17 && u % 2 == 1) then 1
    else 0
  }

  lemma {:induction false} ScaledValue(u: int, e: int)
    requires 0 < u < 2 * UNITS
    ensures Times(Scaled(u) as real, P2(e - Doublings(u))) == Times(u as real, P2(e))
    decreases UNITS - u
  {
    if u < UNITS {
      ScaledValue(2 * u, e - 1);
      P2Double(e - 1);
      hide P2;
      TwiceHalf(u, P2(e), P2(e - 1));
      assert e - 1 - Doublings(2 * u) == e - Doublings(u);
    }
  }

  lemma TwiceHalf(u: int, p: real, h: real)
    requires p == 2.0 * h
    ensures Times((2 * u) as real, h) == Times(u as real, p)
  {
  }

  /** The nearest integer to t / d for a positive even d, decided on remainders. */
  lemma RoundEvenQuotient(t: int, d: int, q: int)
    requires d > 0
    requires 2 * (t - d * q) < d && 2 * (d * q - t) < d
    ensures RoundEven(t as real / d as real) == q
  {
    var z := t as real / d as real;
    assert z * d as real == t as real;
    QuotientGap(z, d as real, q as real, (t - d * q) as real);
    RoundEvenUnique(z, q);
  }

  lemma QuotientGap(z: real, d: real, q: real, r: real)
    requires d > 0.0 && z * d == d * q + r && 2.0 * r < d && -2.0 * r < d
    ensures Abs(z - q) < 0.5
  {
    var g := z - q;
    ScaledOrder(0.5, g, d, 0.5 * d, r);
    ScaledOrder(g, -0.5, d, r, -0.5 * d);
  }

  // ----- The two roundings -----

  /** The first rounding: a hundredth of m * 2^j becomes the nearest hundredth k of the significand
      scaled to 64 * u. */
  lemma MajorOfHeld(m: int, j: nat, u: int, e: int, k: int)
    requires 0 < m <= TWO_53 && j <= 11 && u == Scaled(m) && e == j - 6 - Doublings(m)
    requires -50 < 64 * u - 100 * k < 50
    ensures -65 <= e <= 5
    ensures Div(Fin(Times(m as real, P2(j))), HUNDRED) == Fin(Times(k as real, P2(e)))
    ensures Times(m as real, P2(j)) == Times((64 * u) as real, P2(e))
  {
    DoublingsBound(m);
    ScaledValue(m, j);
    var z, v := (64 * u) as real / 100.0, Times(m as real, P2(j));
    RoundEvenQuotient(64 * u, 100, k);
    P2Plus6(e);
    hide P2, RoundEven, Round;
    Hundredth(u, P2(e), P2(e + 6), z, v);
    RoundScaled(z, e, k, v / 100.0);
  }

  lemma Hundredth(u: int, p: real, q: real, z: real, v: real)
    requires z == (64 * u) as real / 100.0 && q == 64.0 * p && Times(u as real, q) == v
    ensures Times((64 * u) as real, p) == v
    ensures Times(z, p) == v / 100.0
  {
    assert Times(z, p) == Times((64 * u) as real, p) / 100.0;
  }

  lemma IntRepresentable(c: int)
    requires -TWO_53 < c < TWO_53
    ensures Representable(c as real)
  {
    assert DyadicBy(c as real, c, 0);
  }

  lemma {:induction false} DoublingsBelow(u: int, j: nat)
    requires Pow2(j) <= u < 2 * UNITS
    ensures Doublings(u) > 0 ==> Pow2(j + Doublings(u) - 1) < UNITS
    decreases UNITS - u
  {
    if u < UNITS { DoublingsBelow(2 * u, j + 1); }
  }

  lemma DoublingsBound(u: int)
    requires 0 < u < 2 * UNITS
    ensures Doublings(u) <= 59
  {
    DoublingsBelow(u, 0);
    Pow2Of52();
    Pow2Add(7, 52);
    assert Pow2(7) == 128;
    if Doublings(u) > 59 { Pow2AtMost(59, Doublings(u) - 1); }
  }

  lemma {:induction false} Pow2AtMost(s: nat, t: nat)
    requires s <= t
    ensures Pow2(s) <= Pow2(t)
    decreases t - s
  {
    if s < t { Pow2AtMost(s, t - 1); }
  }

  lemma RoundEvenTie(f: int)
    ensures RoundEven((64 * f + 32) as real / 64.0) == if f % 2 == 0 then f else f + 1
  {
    assert (64 * f + 32) as real / 64.0 == f as real + 0.5;
  }

  lemma RoundEven64ths(c: int, r: int, t: int)
    requires -64 < r < 64 && t == 64 * c + r
    ensures RoundEven(t as real / 64.0)
         == if r < -32 || (r == -32 && c % 2 == 1) then c - 1
            else if r > 32 || (r == 32 && c % 2 == 1) then c + 1
            else c
  {
    if r == 32 {
      RoundEvenTie(c);
    } else if r == -32 {
      assert t == 64 * (c - 1) + 32;
      RoundEvenTie(c - 1);
    } else {
      RoundEvenQuotient(t, 64, if r < -32 then c - 1 else if r > 32 then c + 1 else c);
    }
  }

  /** The nearest hundredth of 64 * u, and its distance in quarters. */
  lemma NearestHundredth(u: int) returns (k: int, q: int)
    ensures 25 * k == 16 * u + q && -12 <= q <= 12
    ensures Miss(u) == if u >= TWO_53 then 0
                       else if q < -8 || (q == -8 && u % 2 == 1) then -1
                       else if q > 8 || (q == 8 && u % 2 == 1) then 1 else 0
  {
    var w := 16 * u % 25;
    k := 16 * u / 25;
    q := -w;
    if w > 12 { k, q := k + 1, 25 - w; }
  }

  /** The second rounding: multiplying back by 100 lands on the scaled amount plus its miss. */
  lemma SecondRounding(u: int, k: int, q: int, e: int, x: real)
    requires UNITS <= u < 2 * UNITS && 25 * k == 16 * u + q && -12 <= q <= 12
    requires MIN_EXP <= e <= 5 && x == Times(k as real, P2(e))
    requires u < TWO_53
    ensures Round(x * 100.0) == Fin(Times((64 * u) as real, P2(e)) + Times(RoundedMiss(u, q) as real, P2(e + 6)))
  {
    hide P2, RoundEven, Times, Round;
    P2Plus6(e);
    var d := RoundedMiss(u, q);
    RoundEven64ths(u, 4 * q, 100 * k);
    Regrid64(u, k, d, P2(e), P2(e + 6));
    RoundScaled((100 * k) as real / 64.0, e + 6, u + d, x * 100.0);
  }

  function RoundedMiss(u: int, q: int): int {
    if q < -8 || (q == -8 && u % 2 == 1) then -1 else if q > 8 || (q == 8 && u % 2 == 1) then 1 else 0
  }

  /** In the upper part of the binade the last place of the product is coarse enough to absorb it. */
  lemma SecondRoundingUpper(u: int, k: int, q: int, e: int, x: real)
    requires TWO_53 <= u < 2 * UNITS && u % 2 == 0 && 25 * k == 16 * u + q && -12 <= q <= 12
    requires MIN_EXP <= e <= 5 && x == Times(k as real, P2(e))
    ensures Round(x * 100.0) == Fin(Times((64 * u) as real, P2(e)))
  {
    hide P2, RoundEven, Times, Round;
    P2Plus6(e);
    var h := u / 2;
    assert 128 * TWO_52 <= 100 * k;
    RoundEvenQuotient(100 * k, 128, h);
    Regrid128(h, k, P2(e), P2(e + 7));
    RoundScaled((100 * k) as real / 128.0, e + 7, h, x * 100.0);
  }

  lemma P2Plus6(e: int)
    ensures P2(e + 6) == 64.0 * P2(e) && P2(e + 7) == 128.0 * P2(e)
  {
    P2Double(e); P2Double(e + 1); P2Double(e + 2); P2Double(e + 3); P2Double(e + 4); P2Double(e + 5); P2Double(e + 6);
    hide P2;
  }

  /** Both roundings together, for the significand m and exponent j of float64(c). */
  lemma ProductOfHeld(m: int, j: nat)
    requires 0 < m <= TWO_53 && j <= 11
    ensures Mul(Div(Fin(Times(m as real, P2(j))), HUNDRED), HUNDRED) == Fin(Product(m, j))
  {
    hide P2, Miss, Times, Scaled, Doublings, Mul, Div, Round;
    var u := Scaled(m);
    var e: int := j - 6 - Doublings(m);
    var k, q := NearestHundredth(u);
    MajorOfHeld(m, j, u, e, k);
    var x := Times(k as real, P2(e));
    MulHundred(x);
    if u < TWO_53 {
      SecondRounding(u, k, q, e, x);
    } else {
      ScaledEven(m);
      SecondRoundingUpper(u, k, q, e, x);
      TimesZero(P2(e + 6));
    }
  }

  lemma ScaledEven(m: int)
    requires 0 < m <= TWO_53
    ensures Scaled(m) >= TWO_53 ==> Scaled(m) % 2 == 0
  {
  }

  /** m * 2^j and its miss. */
  function Product(m: int, j: nat): real
    requires 0 <= m <= TWO_53
  {
    if m == 0 then 0.0 else Times(m as real, P2(j)) + Times(Miss(Scaled(m)) as real, P2(j - Doublings(m)))
  }

  /** What multiplying the wire amount for c cents by 100 gives, for every int64. */
  lemma ProductOfMajor(c: int)
    requires INT64_MIN <= c <= INT64_MAX
    ensures Significand(Magnitude(c)) <= TWO_53
    ensures var p := Product(Significand(Magnitude(c)), Excess(Magnitude(c)));
            Mul(CentsToMajor(c), HUNDRED) == Fin(if c < 0 then -p else p)
  {
    var a := Magnitude(c);
    if c == 0 {
      ZeroProduct(c as real);
    } else {
      var m, j := Significand(a), Excess(a);
      HeldMagnitude(a, j, m);
      hide P2, Excess, Significand, Product;
      ProductOfHeld(m, j);
      NegProduct(a);
      hide Mul, Div, Round;
    }
  }

  lemma Regrid64(u: int, k: int, d: int, p: real, q: real)
    requires q == 64.0 * p
    ensures Times((100 * k) as real / 64.0, q) == Times(k as real, p) * 100.0
    ensures Times((u + d) as real, q) == Times((64 * u) as real, p) + Times(d as real, q)
  {
    assert (64 * u) as real == 64.0 * u as real;
    assert (u + d) as real == u as real + d as real;
  }

  lemma Regrid128(h: int, k: int, p: real, q: real)
    requires q == 128.0 * p
    ensures Times((100 * k) as real / 128.0, q) == Times(k as real, p) * 100.0
    ensures Times(h as real, q) == Times((64 * (2 * h)) as real, p)
  {
    assert (64 * (2 * h)) as real == 128.0 * h as real;
  }

  lemma TimesZero(p: real)
    ensures Times(0 as real, p) == 0.0
  {
  }

  // ----- Rounding conversion: the exact set of amounts that survive -----

  /** The rounding conversion moves an amount of a cents by this much (away from zero). */
  function Drift(a: int): (d: int)
    requires 0 <= a
    ensures -1 <= d <= 1
  {
    if a >= UNITS then Miss(a)
    else if a >= UNITS / 2 && a < TWO_52 && 13 <= 32 * a % 25 <= 16 then 1
    else 0
  }

  /** The truncating conversion moves an amount of a cents by this much (away from zero). */
  function TruncationDrift(a: int): (d: int)
    requires 0 <= a <= TWO_53
    ensures -1 <= d <= 1
  {
    if a == 0 then 0
    else if a >= UNITS then Miss(a)
    else if Miss(Scaled(a)) == -1 then -1
    else 0
  }

  lemma NearInteger(c: int, y: real, d: int, p: real)
    requires 0 < c < TWO_53 && y == c as real + Times(d as real, p) && -1 <= d <= 1 && 0.0 < p <= 1.0
    ensures p < 0.5 ==> HalfAway(y) == c
    ensures p == 0.5 ==> HalfAway(y) == if d == 1 then c + 1 else c
    ensures p == 1.0 ==> HalfAway(y) == Truncate(y) == c + d
    ensures p <= 0.5 ==> Truncate(y) == if d == -1 then c - 1 else c
  {
    assert y == if d == 1 then c as real + p else if d == 0 then c as real else c as real - p;
    hide Times;
  }

  lemma DoublingsCases(c: int)
    requires 0 < c < TWO_53
    ensures var d, u := Doublings(c), Scaled(c);
            && (c >= UNITS ==> d == 0 && u == c && P2(-d) == 1.0)
            && (UNITS / 2 <= c < UNITS ==> d == 1 && u == 2 * c && P2(-d) == 0.5)
            && (c < UNITS / 2 ==> P2(-d) < 0.5)
  {
    var d := Doublings(c);
    if c < UNITS / 2 {
      assert d == 1 + Doublings(2 * c) && Doublings(2 * c) >= 1;
      P2Monotone(-d, -2);
    }
  }

  lemma MissOfDouble(a: int)
    requires UNITS / 2 <= a < UNITS
    ensures Miss(2 * a) == 1 <==> a < TWO_52 && 13 <= 32 * a % 25 <= 16
  {
  }

  /** An amount whose cents fit a significand. */
  lemma SmallProduct(c: int)
    requires 0 < c < TWO_53
    ensures HalfAway(Product(c, 0)) == c + Drift(c) && Truncate(Product(c, 0)) == c + TruncationDrift(c)
  {
    var d, u := Doublings(c), Scaled(c);
    DoublingsCases(c);
    P2Monotone(-d, 0);
    assert Times(c as real, P2(0)) == c as real;
    var y := Product(c, 0);
    assert y == c as real + Times(Miss(u) as real, P2(-d));
    hide P2, Times, Product, Doublings, Scaled, Miss, HalfAway, Truncate;
    NearInteger(c, y, Miss(u), P2(-d));
    if UNITS / 2 <= c < UNITS { MissOfDouble(c); }
  }

  /** A longer one: the product is a whole number of cents, and both conversions return it. */
  lemma LongProduct(m: int, j: nat)
    requires TWO_52 <= m <= TWO_53 && j > 0
    ensures Product(m, j) == Shifted(m + Drift(m), j) as real
    ensures Drift(m) == TruncationDrift(m)
  {
    P2IsPow2(j);
    hide P2;
    if m < UNITS {
      assert Scaled(m) == 2 * m && Miss(2 * m) == 0;
      TimesZero(P2(j - 1));
    } else {
      SumTimes(m, Miss(m), Pow2(j));
    }
  }

  lemma SumTimes(m: int, d: int, p: int)
    ensures Times(m as real, p as real) + Times(d as real, p as real) == ((m + d) * p) as real
  {
    assert Times(m as real, p as real) == (m * p) as real && Times(d as real, p as real) == (d * p) as real;
    assert (m + d) * p == m * p + d * p;
  }

  lemma PositiveProduct(a: nat, m: nat, j: nat)
    requires 0 < a <= TWO_63 && m == Significand(a) && j == Excess(a)
    ensures m <= TWO_53
    ensures HalfAway(Product(m, j)) == Shifted(m + Drift(m), j)
    ensures Truncate(Product(m, j)) == Shifted(m + TruncationDrift(m), j)
  {
    hide Product, HalfAway, Truncate, Drift, TruncationDrift, Significand, Excess, Shifted, P2, OfInt;
    HeldMagnitude(a, j, m);
    if j == 0 {
      SmallProduct(m);
      ShortMagnitude(m);
    } else {
      LongProduct(m, j);
      WholeNumber(Shifted(m + Drift(m), j));
    }
  }

  lemma NegMajor(c: int)
    ensures CentsToMajor(-c) == CentsToMajor(c).Neg()
  {
    RoundNeg(c as real);
    var f := OfInt(c);
    assert OfInt(-c) == f.Neg() by { assert (-c) as real == -(c as real); }
    hide OfInt, Round;
    DivNeg(f);
  }

  lemma NegProduct(c: int)
    ensures Mul(CentsToMajor(-c), HUNDRED) == Mul(CentsToMajor(c), HUNDRED).Neg()
  {
    hide CentsToMajor, Mul;
    NegMajor(c);
    MulNeg(CentsToMajor(c));
  }

  /** The exact effect of one wire round trip, for every int64 amount of cents. With m and j the
      significand and exponent of float64(c), the rounding conversion returns m moved by Drift(m) and
      the truncating one m moved by TruncationDrift(m), both away from zero and the same for both
      signs, shifted by j; what is then no int64 any more is the platform's choice. */
  lemma WireRoundTrip(c: int, other: int)
    requires INT64_MIN <= c <= INT64_MAX
    ensures var m, j := Significand(Magnitude(c)), Excess(Magnitude(c));
            && m <= TWO_53
            && Cents(CentsToMajor(c), other) == Narrow(Signed(c, Shifted(m + Drift(m), j)), other)
            && MajorToCents(CentsToMajor(c), other) == Narrow(Signed(c, Shifted(m + TruncationDrift(m), j)), other)
  {
    hide Mul, CentsToMajor, HalfAway, Truncate, ToInt64, MathRound, Product, Significand, Excess, Shifted,
         Drift, TruncationDrift, Narrow;
    var a := Magnitude(c);
    var m, j := Significand(a), Excess(a);
    ProductOfMajor(c);
    if c == 0 { NothingHeld(); } else { PositiveProduct(a, m, j); }
    Converted(Product(m, j), other);
    Converted(-Product(m, j), other);
  }

  lemma NothingHeld()
    ensures Significand(0) == 0
    ensures Product(0, Excess(0)) == 0.0 && HalfAway(0.0) == 0 == Truncate(0.0)
    ensures Drift(0) == 0 == TruncationDrift(0) && Shifted(0, Excess(0)) == 0
  {
    assert Pow2(0) == 1;
  }

  /** An amount under 2^53 cents is its own significand and stays in int64. */
  lemma SmallRoundTrip(c: int, other: int)
    requires -TWO_53 < c < TWO_53
    ensures Cents(CentsToMajor(c), other) == c + Signed(c, Drift(Magnitude(c)))
    ensures MajorToCents(CentsToMajor(c), other) == c + Signed(c, TruncationDrift(Magnitude(c)))
  {
    hide Cents, MajorToCents, CentsToMajor, Drift, TruncationDrift, Excess, Significand, Shifted;
    ShortMagnitude(Magnitude(c));
    WireRoundTrip(c, other);
  }

  lemma ZeroProduct(z: real)
    requires z == 0.0
    ensures Mul(Div(Round(z), HUNDRED), HUNDRED) == Fin(z)
  {
    hide Round, Mul, Div;
    RoundNeg(z);
    MulHundred(z);
    DivHundred(z);
    assert z / 100.0 == z && z * 100.0 == z;
  }

  /** float64(c) stands for Held(c), the nearest amount of 53 significant bits. The number sent for c
      is the one nearest to Held(c) / 100, so the decimal text of that is decoded to it; for c itself
      that is so whenever no bit of c is lost. */
  lemma DecodedAmount(c: int)
    requires INT64_MIN <= c <= INT64_MAX
    ensures OfInt(c) == Fin(Held(c) as real)
    ensures CentsToMajor(c) == Round(Held(c) as real / 100.0)
    ensures Held(c) == c <==> Magnitude(c) % Pow2(Excess(Magnitude(c))) == 0
  {
    hide Round, Excess, Significand, Shifted, Magnitude, Held;
    HeldFloat(c);
    DivHundred(Held(c) as real);
    hide Div;
    HeldIff(c);
  }

  lemma HeldFloat(c: int)
    requires INT64_MIN <= c <= INT64_MAX
    ensures OfInt(c) == Fin(Held(c) as real)
  {
    hide Round, Excess, Significand, Shifted, P2, Times;
    var a := Magnitude(c);
    var m, j := Significand(a), Excess(a);
    RoundNeg(a as real);
    if c == 0 {
      NothingHeld();
    } else {
      HeldMagnitude(a, j, m);
      HeldInteger(m, j);
      NegatedReal(a);
      NegatedReal(Shifted(m, j));
    }
  }

  lemma NegatedReal(n: int)
    ensures (-n) as real == -(n as real)
  {
  }

  lemma HeldIff(c: int)
    ensures Held(c) == c <==> Magnitude(c) % Pow2(Excess(Magnitude(c))) == 0
  {
    hide Excess, Pow2, NearestQuotient;
    var a := Magnitude(c);
    MultipleIff(a, Pow2(Excess(a)), Significand(a), 0);
  }

  lemma HeldInteger(m: int, j: nat)
    ensures Times(m as real, P2(j)) == Shifted(m, j) as real
  {
    P2IsPow2(j);
  }

  /** The nearest multiple of p to a, moved by d of them, is a itself only if a is such a multiple and
      d is zero. */
  lemma MultipleIff(a: nat, p: nat, m: nat, d: int)
    requires p > 0 && m == NearestQuotient(a, p)
    ensures (m + d) * p == a <==> a % p == 0 && d == 0
  {
    var q, r := a / p, a % p;
    assert (m + d) * p - a == (m + d - q) * p - r;
    MultipleGap(m + d - q, p, r);
  }

  lemma MultipleGap(t: int, p: int, r: int)
    requires 0 <= r < p
    ensures t * p == r <==> t == 0 && r == 0
  {
    if t >= 1 { assert (t - 1) * p >= 0; } else if t <= -1 { assert (-t - 1) * p >= 0; }
  }

  /** Whether a hundredth of a and a hundredth of the amount that float64(a) holds have the same nearest
      significand. Just under a binade of hundredths, in the third case, that of a has one bit more. */
  predicate SentNearest(a: nat) {
    var m, p := Significand(a), Pow2(Excess(a));
    if Excess(a) == 0 then true
    else if m < UNITS then NearestQuotient(128 * a, 100 * p) == NearestQuotient(128 * m, 100)
    else if a < UNITS * p then NearestQuotient(128 * a, 100 * p) == 2 * NearestQuotient(64 * m, 100)
    else NearestQuotient(64 * a, 100 * p) == NearestQuotient(64 * m, 100)
  }

  lemma NearestGap(t: nat, d: nat)
    requires d > 0
    ensures var gap: int := t - d * NearestQuotient(t, d); 2 * gap <= d && -2 * gap <= d
  {
    var q, r := t / d, t % d;
    assert t == d * q + r && d * (q + 1) == d * q + d;
  }

  /** A hundredth of a, brought into the range of a significand by a scale of 2^-f / p. */
  lemma RoundHundredth(a: nat, scale: nat, p: int, f: int, n: int)
    requires p > 0 && scale > 0 && scale as real * P2(f) == p as real && MIN_EXP <= f < MAX_EXP
    requires TWO_52 * (100 * p) <= scale * a < TWO_53 * (100 * p)
    requires n == NearestQuotient(scale * a, 100 * p)
    ensures Round(a as real / 100.0) == Fin(Times(n as real, P2(f)))
  {
    hide P2, Round, RoundEven, NearestQuotient;
    var t, d := scale * a, 100 * p;
    QuotientInRange(t, d);
    RoundEvenIsNearest(t, d);
    ScaleCancels(a, scale, p, P2(f), t as real / d as real);
    RoundScaled(t as real / d as real, f, n, a as real / 100.0);
  }

  lemma ScaleCancels(a: int, scale: int, p: int, q: real, z: real)
    requires p > 0 && scale > 0 && scale as real * q == p as real && z == (scale * a) as real / (100 * p) as real
    ensures Times(z, q) == a as real / 100.0
  {
    var s, r, b := scale as real, p as real, a as real;
    assert z * (100.0 * r) == s * b;
    assert (z * q) * (100.0 * r) == (s * b) * q == (s * q) * b == r * b;
    CancelFactor(100.0 * (z * q), b, r);
  }

  lemma CancelFactor(x: real, y: real, r: real)
    requires r > 0.0 && x * r == r * y
    ensures x == y
  {
  }

  lemma LowerRange(a: nat, m: nat, p: nat)
    requires p > 0 && m == NearestQuotient(a, p) && m < UNITS && TWO_52 * p <= a
    ensures TWO_52 * (100 * p) <= 128 * a < TWO_53 * (100 * p)
  {
    NearestGap(a, p);
    SmallerProduct(p, m, UNITS - 1);
  }

  lemma UpperRange(a: nat, m: nat, p: nat)
    requires p > 0 && m == NearestQuotient(a, p) && m >= UNITS && a < TWO_53 * p
    ensures a >= UNITS * p ==> TWO_52 * (100 * p) <= 64 * a < TWO_53 * (100 * p)
    ensures a < UNITS * p ==> TWO_52 * (100 * p) <= 128 * a < TWO_53 * (100 * p)
  {
    NearestGap(a, p);
    SmallerProduct(p, UNITS, m);
  }

  lemma MajorLower(m: int, j: nat, k: int)
    requires TWO_52 <= m < UNITS && 0 < j <= 11 && k == NearestQuotient(128 * m, 100)
    ensures Div(Fin(Times(m as real, P2(j))), HUNDRED) == Fin(Times(k as real, P2(j - 7)))
  {
    assert Scaled(m) == 2 * m && Doublings(m) == 1;
    hide P2, Div, Scaled, Doublings;
    MajorOfHeld(m, j, 2 * m, j - 7, k);
  }

  lemma MajorUpper(m: int, j: nat, k: int)
    requires UNITS <= m <= TWO_53 && 0 < j <= 11 && k == NearestQuotient(64 * m, 100)
    ensures Div(Fin(Times(m as real, P2(j))), HUNDRED) == Fin(Times(k as real, P2(j - 6)))
  {
    assert Scaled(m) == m && Doublings(m) == 0;
    hide P2, Div, Scaled, Doublings;
    MajorOfHeld(m, j, m, j - 6, k);
  }

  lemma PlacesOf(j: nat, p: int)
    requires p == Pow2(j)
    ensures 128.0 * P2(j - 7) == p as real == 64.0 * P2(j - 6)
  {
    P2IsPow2(j);
    P2Plus6(j - 7);
    P2Plus6(j - 6);
  }

  lemma SentLower(a: nat, j: nat, m: nat, p: int)
    requires 0 < j <= 11 && p == Pow2(j) && m == NearestQuotient(a, p) && TWO_52 <= m < UNITS
    requires TWO_52 * p <= a
    ensures var k, n := NearestQuotient(128 * m, 100), NearestQuotient(128 * a, 100 * p);
            Div(Fin(Times(m as real, P2(j))), HUNDRED) == Round(a as real / 100.0) <==> n == k
  {
    hide P2, Pow2, NearestQuotient, Round, Div, Times;
    var k, n := NearestQuotient(128 * m, 100), NearestQuotient(128 * a, 100 * p);
    MajorLower(m, j, k);
    PlacesOf(j, p);
    LowerRange(a, m, p);
    RoundHundredth(a, 128, p, j - 7, n);
    OrderTimes(k as real, n as real, P2(j - 7));
  }

  lemma SentUpper(a: nat, j: nat, m: nat, p: int)
    requires 0 < j <= 11 && p == Pow2(j) && m == NearestQuotient(a, p) && UNITS <= m <= TWO_53
    requires UNITS * p <= a < TWO_53 * p
    ensures var k, n := NearestQuotient(64 * m, 100), NearestQuotient(64 * a, 100 * p);
            Div(Fin(Times(m as real, P2(j))), HUNDRED) == Round(a as real / 100.0) <==> n == k
  {
    hide P2, Pow2, NearestQuotient, Round, Div, Times;
    var k, n := NearestQuotient(64 * m, 100), NearestQuotient(64 * a, 100 * p);
    MajorUpper(m, j, k);
    PlacesOf(j, p);
    UpperRange(a, m, p);
    RoundHundredth(a, 64, p, j - 6, n);
    OrderTimes(k as real, n as real, P2(j - 6));
  }

  lemma SentJustUnder(a: nat, j: nat, m: nat, p: int)
    requires 0 < j <= 11 && p == Pow2(j) && m == NearestQuotient(a, p) && UNITS <= m <= TWO_53
    requires a < UNITS * p
    ensures var k, n := NearestQuotient(64 * m, 100), NearestQuotient(128 * a, 100 * p);
            Div(Fin(Times(m as real, P2(j))), HUNDRED) == Round(a as real / 100.0) <==> n == 2 * k
  {
    hide P2, Pow2, NearestQuotient, Round, Div, Times;
    var k, n := NearestQuotient(64 * m, 100), NearestQuotient(128 * a, 100 * p);
    MajorUpper(m, j, k);
    PlacesOf(j, p);
    UpperRange(a, m, p);
    RoundHundredth(a, 128, p, j - 7, n);
    HalvePlace(k, j);
    OrderTimes((2 * k) as real, n as real, P2(j - 7));
  }

  lemma SentMagnitude(a: nat)
    requires TWO_53 <= a <= TWO_63
    ensures CentsToMajor(a) == Round(a as real / 100.0) <==> SentNearest(a)
  {
    hide Pow2, P2, NearestQuotient, Round, Div, Times;
    var j, m := Excess(a), Significand(a);
    var p := Pow2(j);
    HeldMagnitude(a, j, m);
    ExcessBracket(a);
    hide Excess;
    if m < UNITS {
      SentLower(a, j, m, p);
    } else if a < UNITS * p {
      SentJustUnder(a, j, m, p);
    } else {
      SentUpper(a, j, m, p);
    }
  }

  lemma HalvePlace(k: int, j: int)
    ensures Times(k as real, P2(j - 6)) == Times((2 * k) as real, P2(j - 7))
  {
    P2Double(j - 7);
    hide P2;
    TwiceHalf(k, P2(j - 6), P2(j - 7));
  }

  /** For every int64 of cents: the number sent is the one nearest to c / 100 exactly when the
      significand is not pushed over by the bits that float64(c) loses. */
  lemma SentIsNearest(c: int)
    requires INT64_MIN <= c <= INT64_MAX
    ensures CentsToMajor(c) == Round(c as real / 100.0) <==> SentNearest(Magnitude(c))
  {
    hide CentsToMajor, Round, SentNearest, P2;
    var a := Magnitude(c);
    if a < TWO_53 {
      SentShort(c);
    } else {
      SentMagnitude(a);
      NegMajor(a);
      RoundNeg(a as real / 100.0);
      assert (-a) as real / 100.0 == -(a as real / 100.0);
    }
  }

  lemma SentShort(c: int)
    requires Magnitude(c) < TWO_53
    ensures CentsToMajor(c) == Round(c as real / 100.0) && SentNearest(Magnitude(c))
  {
    hide CentsToMajor, Round, NearestQuotient;
    ShortMagnitude(Magnitude(c));
    DecodedAmount(c);
    assert Pow2(0) == 1;
  }

  const FIRST_LOSS: int := TWO_53 + 1

  /** 2^53 + 1 cents go out as the number for 2^53 cents, one last place below the nearest. */
  lemma FirstLoss()
    ensures CentsToMajor(FIRST_LOSS) != Round(FIRST_LOSS as real / 100.0)
  {
    assert Excess(TWO_52) == 0 && Excess(FIRST_LOSS) == 1 && Pow2(1) == 2 && Significand(FIRST_LOSS) == TWO_52;
    hide CentsToMajor, Round;
    SentIsNearest(FIRST_LOSS);
  }

  /** Every amount under 2^53 + 1 cents goes out as the number nearest to its hundredth, and no larger
      bound does. */
  lemma DecodedAmountBound(bound: int)
    requires 0 < bound <= TWO_63
    ensures (forall c :: -bound < c < bound ==> CentsToMajor(c) == Round(c as real / 100.0)) <==> bound <= FIRST_LOSS
  {
    hide CentsToMajor, Round;
    if bound <= FIRST_LOSS {
      forall c | -bound < c < bound
        ensures CentsToMajor(c) == Round(c as real / 100.0)
      {
        DecodedAmount(c);
        assert Excess(TWO_52) == 0 && Pow2(0) == 1 && Pow2(1) == 2;
      }
    } else {
      FirstLoss();
      assert -bound < FIRST_LOSS < bound;
    }
  }

  /** No bit of a is lost in float64(a), and its significand does not drift. */
  predicate Survives(a: nat)
  {
    var p := Pow2(Excess(a));
    a % p == 0 && a / p <= TWO_53 && Drift(a / p) == 0
  }

  /** The rounding conversion gives back exactly c, on every platform, if and only if c survives, ... */
  lemma CentsRoundTrip(c: int)
    requires INT64_MIN <= c <= INT64_MAX
    ensures (forall other :: Cents(CentsToMajor(c), other) == c) <==> Survives(Magnitude(c))
  {
    hide Cents, CentsToMajor, Drift, Excess, Significand, Shifted, Narrow, Survives;
    var a := Magnitude(c);
    var m, j := Significand(a), Excess(a);
    SurvivesIff(a);
    forall other
      ensures Cents(CentsToMajor(c), other) == Narrow(Signed(c, Shifted(m + Drift(m), j)), other)
    {
      WireRoundTrip(c, other);
    }
    NarrowTo(Signed(c, Shifted(m + Drift(m), j)), c);
    assert Cents(CentsToMajor(c), c + 1) == Narrow(Signed(c, Shifted(m + Drift(m), j)), c + 1);
  }

  lemma NarrowTo(n: int, c: int)
    requires INT64_MIN <= c <= INT64_MAX
    ensures n == c ==> forall other :: Narrow(n, other) == c
    ensures n != c ==> Narrow(n, c + 1) != c
  {
  }

  lemma SurvivesIff(a: nat)
    requires a <= TWO_63
    ensures var m := Significand(a);
            m <= TWO_53 && (Shifted(m + Drift(m), Excess(a)) == a <==> Survives(a))
  {
    hide Drift, Excess, Pow2, NearestQuotient;
    var m, j := Significand(a), Excess(a);
    if a == 0 { NothingHeld(); } else { HeldMagnitude(a, j, m); }
    MultipleIff(a, Pow2(j), m, Drift(m));
    NearestExact(a, Pow2(j));
  }

  lemma NearestExact(a: nat, d: nat)
    requires d > 0
    ensures a % d == 0 ==> NearestQuotient(a, d) == a / d
  {
  }

  const FIRST_DRIFT: int := UNITS / 2 + 2

  /** ... so every amount below 3518437208883202 cents survives, and that bound is exact. */
  lemma CentsRoundTripBound(bound: int, other: int)
    requires 0 < bound <= TWO_63
    ensures (forall c :: -bound < c < bound ==> Cents(CentsToMajor(c), other) == c) <==> bound <= FIRST_DRIFT
  {
    hide Cents, CentsToMajor, Drift;
    if bound <= FIRST_DRIFT {
      forall c | -bound < c < bound
        ensures Cents(CentsToMajor(c), other) == c
      {
        SurvivesBelow(c, other);
      }
    } else {
      FirstDrift(other);
      assert -bound < FIRST_DRIFT < bound;
    }
  }

  lemma SurvivesBelow(c: int, other: int)
    requires -FIRST_DRIFT < c < FIRST_DRIFT
    ensures Cents(CentsToMajor(c), other) == c
  {
    hide Cents, CentsToMajor, Drift;
    SmallRoundTrip(c, other);
    NoDriftBelow(Magnitude(c));
  }

  lemma FirstDrift(other: int)
    ensures Cents(CentsToMajor(FIRST_DRIFT), other) != FIRST_DRIFT
  {
    assert Drift(FIRST_DRIFT) == 1;
    hide Cents, CentsToMajor, Drift;
    SmallRoundTrip(FIRST_DRIFT, other);
  }

  lemma NoDriftBelow(a: nat)
    requires a < FIRST_DRIFT
    ensures Drift(a) == 0
  {
    hide Miss;
  }

  /** Below 25 * 2^48 cents truncation returns c or one cent nearer to zero, never more, and it loses
      the cent exactly when Miss is -1: when u, the amount doubled up to its binade, is below 2^53 and
      16 * u leaves 9 to 12 (8 for an odd u) modulo 25. From there on it returns what rounding does. */
  lemma TruncationLosesAtMostOneCent(c: int, other: int)
    requires INT64_MIN <= c <= INT64_MAX
    ensures var r := MajorToCents(CentsToMajor(c), other);
            if Magnitude(c) < UNITS then
              && (r == c || r == c - Sign(c))
              && (r == c - Sign(c) <==> c != 0 && Miss(Scaled(Magnitude(c))) == -1)
            else r == Cents(CentsToMajor(c), other)
  {
    var a := Magnitude(c);
    hide MajorToCents, Cents, CentsToMajor, Miss;
    if a < UNITS {
      SmallRoundTrip(c, other);
    } else {
      WireRoundTrip(c, other);
      SameDrift(a);
      hide Narrow, Excess, Significand, Drift, TruncationDrift;
    }
  }

  lemma SameDrift(a: nat)
    requires UNITS <= a <= TWO_63
    ensures Significand(a) <= TWO_53 && Drift(Significand(a)) == TruncationDrift(Significand(a))
  {
    HeldMagnitude(a, Excess(a), Significand(a));
    hide Excess;
    if Excess(a) > 0 { LongProduct(Significand(a), Excess(a)); }
  }

  lemma ScaledBy16(u: int)
    requires 0 < u && 8 * u < UNITS
    ensures Scaled(u) == Scaled(16 * u)
  {
    assert Scaled(u) == Scaled(2 * u);
    assert Scaled(2 * u) == Scaled(4 * u);
    assert Scaled(4 * u) == Scaled(8 * u);
    assert Scaled(8 * u) == Scaled(16 * u);
  }

  lemma ScaledBy4096(u: int)
    requires 0 < u && 2048 * u < UNITS
    ensures Scaled(u) == Scaled(4096 * u)
  {
    ScaledBy16(u);
    ScaledBy16(16 * u);
    ScaledBy16(256 * u);
  }

  lemma ScaledTwentyNine()
    ensures Scaled(29) == 29 * 0x1_0000_0000_0000
  {
    ScaledBy4096(29);
    ScaledBy4096(4096 * 29);
    ScaledBy4096(4096 * 4096 * 29);
    ScaledBy4096(4096 * 4096 * 4096 * 29);
  }

  /** 29 cents goes out as 0.29 and comes back as 28 by truncation, as 29 by rounding. */
  lemma TwentyNineCents(other: int)
    ensures MajorToCents(CentsToMajor(29), other) == 28
    ensures Cents(CentsToMajor(29), other) == 29
  {
    SmallRoundTrip(29, other);
    hide Cents, MajorToCents, CentsToMajor;
    ScaledTwentyNine();
  }

  // ----- Through the validation -----

  lemma HundredthRounded(x: real, b: real)
    requires Representable(b) && -b <= x <= b && Round(x).Fin?
    ensures -b <= Round(x).v <= b
  {
    hide Round, Representable;
    RoundExact(b);
    RoundNeg(b);
    RoundMonotone(x, b);
    RoundMonotone(-b, x);
  }

  lemma SmallMajor(c: int)
    requires -TWO_53 < c < TWO_53
    ensures CentsToMajor(c).Fin? && Abs(CentsToMajor(c).v) <= TWO_53 as real / 2.0
  {
    P2Of52();
    SentShort(c);
    hide P2, CentsToMajor;
    var x := c as real / 100.0;
    assert DyadicBy(TWO_52 as real, TWO_52, 0) by { P2Of0(); }
    RoundFinite(x, 0);
    HundredthRounded(x, TWO_52 as real);
  }

  lemma P2Of0()
    ensures P2(0) == 1.0
  {
  }

  /** An amount under 3518437208883202 cents in a currency of three capitals comes back through the
      validation as it went out. */
  lemma ValidatedRoundTrip(c: int, currency: string, other: int)
    requires -FIRST_DRIFT < c < FIRST_DRIFT
    requires |currency| == 3 && forall i :: 0 <= i < 3 ==> 'A' <= currency[i] <= 'Z'
    ensures ToMoney(BalanceAmount(CentsToMajor(c), currency), other) == Ok(Amount(c, currency))
  {
    hide CentsToMajor, Cents, ToMoney;
    SmallMajor(c);
    SurvivesBelow(c, other);
    ToMoneyInRange(BalanceAmount(CentsToMajor(c), currency), other, other);
  }
}
