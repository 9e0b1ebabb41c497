/** IEEE 754 binary64, as far as the SDK's money arithmetic needs it: finite values are exact reals
    of the form m * 2^e, and every operation rounds its exact result to nearest, ties to even
    (section 4.3.1 of IEEE 754-2019). Signed zeros are not told apart: no conversion to cents does. */
module Binary64 {

  const MIN_EXP: int := -1074
  const MAX_EXP: int := 971
  const TWO_52: int := 0x10_0000_0000_0000
  const TWO_53: int := 0x20_0000_0000_0000

  // ----- Powers of two -----

  function P2(e: int): (p: real)
    ensures p > 0.0
    decreases if e < 0 then -e else e
  {
    if e == 0 then 1.0 else if e > 0 then 2.0 * P2(e - 1) else 0.5 * P2(e + 1)
  }

  lemma P2Double(e: int)
    ensures P2(e + 1) == 2.0 * P2(e)
  {
  }

  lemma Doubled(ab: real, a: real, ab1: real, a1: real, b: real)
    requires ab == 2.0 * ab1 && a == 2.0 * a1
    ensures ab == a * b <==> ab1 == a1 * b
  {
  }

  lemma {:induction false} P2AddOf(a: int, b: int, pab: real, pa: real, pb: real)
    requires pab == P2(a + b) && pa == P2(a) && pb == P2(b)
    ensures pab == pa * pb
    decreases if a < 0 then -a else a
  {
    if a > 0 {
      var a1, ab1 := P2(a - 1), P2(a - 1 + b);
      assert pab == 2.0 * ab1;
      P2AddOf(a - 1, b, ab1, a1, pb);
      Doubled(pab, pa, ab1, a1, pb);
    } else if a < 0 {
      var a1, ab1 := P2(a + 1), P2(a + 1 + b);
      P2AddOf(a + 1, b, ab1, a1, pb);
      P2Double(a);
      P2Double(a + b);
      assert a + 1 + b == a + b + 1;
      Doubled(ab1, a1, pab, pa, pb);
    } else {
      assert a + b == b;
    }
  }

  lemma P2Add(a: int, b: int)
    ensures P2(a + b) == P2(a) * P2(b)
  {
    hide P2;
    P2AddOf(a, b, P2(a + b), P2(a), P2(b));
  }

  lemma P2Inverse(e: int)
    ensures P2(e) * P2(-e) == 1.0
  {
    P2Add(e, -e);
  }

  lemma {:induction false} P2Monotone(a: int, b: int)
    requires a <= b
    ensures P2(a) <= P2(b)
    decreases b - a
  {
    if a < b { P2Monotone(a, b - 1); }
  }

  function Pow2(n: nat): (p: int)
    ensures p >= 1
  {
    if n == 0 then 1 else 2 * Pow2(n - 1)
  }

  lemma {:induction false} P2IsPow2(n: nat)
    ensures P2(n) == Pow2(n) as real
  {
    if n > 0 { P2IsPow2(n - 1); }
  }

  lemma {:induction false} Pow2Add(a: nat, b: nat)
    ensures Pow2(a + b) == Pow2(a) * Pow2(b)
  {
    if a > 0 { Pow2Add(a - 1, b); }
  }

  lemma Pow2Of52()
    ensures Pow2(52) == TWO_52 && Pow2(53) == TWO_53
  {
    assert Pow2(13) == 8192;
    Pow2Add(13, 13);
    Pow2Add(26, 26);
    Pow2Add(1, 52);
  }

  lemma P2Of52()
    ensures P2(52) == TWO_52 as real && P2(53) == TWO_53 as real
  {
    Pow2Of52();
    P2IsPow2(52);
    P2IsPow2(53);
  }

  // ----- Values -----

  function Abs(x: real): real { if x < 0.0 then -x else x }

  ghost predicate DyadicBy(v: real, m: int, e: int) {
    -TWO_53 < m < TWO_53 && MIN_EXP <= e <= MAX_EXP && v == Times(m as real, P2(e))
  }

  /** v is the value of some finite binary64 number. */
  ghost predicate Representable(v: real) {
    exists m: int, e: int :: DyadicBy(v, m, e)
  }

  datatype F64 = NaN | Inf(negative: bool) | Fin(v: real) {
    ghost predicate Valid() { Fin? ==> Representable(v) }

    function Neg(): F64 {
      match this
      case NaN => NaN
      case Inf(n) => Inf(!n)
      case Fin(v) => Fin(-v)
    }
  }

  // ----- Rounding -----

  /** Nearest integer, ties to even. */
  function RoundEven(x: real): int {
    var f := x.Floor;
    var d := x - f as real;
    if d < 0.5 || (d == 0.5 && f % 2 == 0) then f else f + 1
  }

  /** Exponent of the unit in the last place for a magnitude a: the least exponent from e up whose
      53-bit significands reach past a, or MAX_EXP + 1 when none does. */
  function UlpExp(a: real, e: int): (r: int)
    requires e <= MAX_EXP + 1
    ensures e <= r <= MAX_EXP + 1
    decreases MAX_EXP + 1 - e
  {
    if e == MAX_EXP + 1 || a < P2(e + 53) then e else UlpExp(a, e + 1)
  }

  function LastPlace(a: real): (r: int)
    ensures MIN_EXP <= r <= MAX_EXP + 1
  {
    UlpExp(a, MIN_EXP)
  }

  function Times(a: real, b: real): real { a * b }

  /** x to the nearest multiple of 2^e, ties to even. */
  function OnGrid(x: real, e: int): (v: real) {
    Times(RoundEven(Times(x, P2(-e))) as real, P2(e))
  }

  /** Round a real to binary64: nearest, ties to even, overflow to infinity. */
  function Round(x: real): F64 {
    var e := LastPlace(Abs(x));
    if e > MAX_EXP then Inf(x < 0.0)
    else if e == MAX_EXP && Abs(OnGrid(x, e)) == P2(e + 53) then Inf(x < 0.0)
    else Fin(OnGrid(x, e))
  }

  function OfInt(n: int): F64 { Round(n as real) }

  function Mul(a: F64, b: F64): F64 {
    if a.NaN? || b.NaN? then NaN
    else if a.Inf? || b.Inf? then
      if a == Fin(0.0) || b == Fin(0.0) then NaN
      else
        var na := if a.Inf? then a.negative else a.v < 0.0;
        var nb := if b.Inf? then b.negative else b.v < 0.0;
        Inf(na != nb)
    else Round(a.v * b.v)
  }

  /** Division by a nonzero finite number. */
  function Div(a: F64, b: F64): F64
    requires b.Fin? && b.v != 0.0
  {
    match a
    case NaN => NaN
    case Inf(n) => Inf(n != (b.v < 0.0))
    case Fin(v) => Round(v / b.v)
  }

  // ----- Rounding to an integer -----

  lemma RoundEvenNearest(x: real, n: int)
    ensures Abs(x - RoundEven(x) as real) <= 0.5
    ensures Abs(x - RoundEven(x) as real) <= Abs(x - n as real)
    ensures Abs(x - RoundEven(x) as real) == Abs(x - n as real) && n != RoundEven(x) ==> RoundEven(x) % 2 == 0
  {
    var f := x.Floor;
    if n <= f {
      assert n as real <= f as real;
    } else {
      assert n as real >= f as real + 1.0;
    }
    if f + 1 < n { assert n as real >= f as real + 2.0; }
    if n < f { assert n as real <= f as real - 1.0; }
  }

  lemma RoundEvenNeg(x: real)
    ensures RoundEven(-x) == -RoundEven(x)
  {
    var f, g := x.Floor, (-x).Floor;
    if x == f as real { assert g == -f; } else { assert g == -f - 1; }
  }

  /** Away from a tie the nearest integer is the only one within one half. */
  lemma RoundEvenUnique(x: real, n: int)
    requires Abs(x - n as real) < 0.5
    ensures RoundEven(x) == n
  {
  }

  // ----- The last-place exponent -----

  lemma {:induction false} UlpExpBracket(a: real, e: int)
    requires e <= MAX_EXP + 1
    ensures UlpExp(a, e) <= MAX_EXP ==> a < P2(UlpExp(a, e) + 53)
    ensures UlpExp(a, e) > e ==> a >= P2(UlpExp(a, e) + 52)
    decreases MAX_EXP + 1 - e
  {
    if !(e == MAX_EXP + 1 || a < P2(e + 53)) { UlpExpBracket(a, e + 1); }
  }

  lemma {:induction false} UlpExpUnique(a: real, e: int, r: int)
    requires e <= r <= MAX_EXP
    requires P2(r + 52) <= a < P2(r + 53)
    ensures UlpExp(a, e) == r
    decreases r - e
  {
    if e < r {
      P2Monotone(e + 53, r + 52);
      UlpExpUnique(a, e + 1, r);
    }
  }

  lemma LastPlaceUnique(a: real, r: int)
    requires MIN_EXP <= r <= MAX_EXP
    requires P2(r + 52) <= a < P2(r + 53)
    ensures LastPlace(a) == r
  {
    UlpExpUnique(a, MIN_EXP, r);
  }

  lemma LastPlaceBracket(a: real)
    ensures LastPlace(a) <= MAX_EXP ==> a < P2(LastPlace(a) + 53)
    ensures LastPlace(a) > MIN_EXP ==> a >= P2(LastPlace(a) + 52)
  {
    UlpExpBracket(a, MIN_EXP);
  }

  /** In the binade [2^(e+52), 2^(e+53)) rounding is rounding to the grid of multiples of 2^e. */
  lemma RoundInBinade(x: real, e: int)
    requires MIN_EXP <= e < MAX_EXP
    requires P2(e + 52) <= Abs(x) < P2(e + 53)
    ensures Round(x) == Fin(OnGrid(x, e))
  {
    LastPlaceUnique(Abs(x), e);
  }

  // ----- Rounding is to nearest, ties to even -----

  lemma ScaledDistance(u: real, x: real, z: real, y: real, p: real)
    requires p > 0.0 && x == u * p && y == z * p
    ensures Abs(x - y) == Abs(u - z) * p
  {
    assert x - y == (u - z) * p;
  }

  lemma ScaledOrder(a: real, b: real, p: real, ap: real, bp: real)
    requires p > 0.0 && ap == a * p && bp == b * p
    ensures a <= b <==> ap <= bp
    ensures a == b <==> ap == bp
  {
  }

  lemma Unscale(x: real, p: real, q: real)
    requires p * q == 1.0
    ensures (x * q) * p == x
  {
    assert (x * q) * p == x * (q * p);
  }

  lemma ScaledNearest(u: real, m: int, n: int, x: real, g: real, y: real, p: real)
    requires p > 0.0 && x == Times(u, p) && g == Times(m as real, p) && y == Times(n as real, p)
    requires Abs(u - m as real) <= Abs(u - n as real) && Abs(u - m as real) <= 0.5
    ensures Abs(x - g) <= Abs(x - y) && Abs(x - g) <= 0.5 * p
    ensures Abs(x - g) == Abs(x - y) ==> Abs(u - m as real) == Abs(u - n as real)
    ensures g == y <==> m == n
  {
    DistanceTimes(u, m as real, p);
    DistanceTimes(u, n as real, p);
    ScaledHalf(Abs(u - m as real), Abs(u - n as real), Abs(x - g), Abs(x - y), p);
    OrderTimes(m as real, n as real, p);
    hide Times, Abs;
  }

  lemma DistanceTimes(u: real, z: real, p: real)
    requires p > 0.0
    ensures Abs(Times(u, p) - Times(z, p)) == Times(Abs(u - z), p)
  {
    ScaledDistance(u, Times(u, p), z, Times(z, p), p);
  }

  lemma OrderTimes(a: real, b: real, p: real)
    requires p > 0.0
    ensures a == b <==> Times(a, p) == Times(b, p)
  {
    ScaledOrder(a, b, p, Times(a, p), Times(b, p));
  }

  lemma ScaledHalf(a: real, b: real, ap: real, bp: real, p: real)
    requires p > 0.0 && ap == Times(a, p) && bp == Times(b, p) && a <= b && a <= 0.5
    ensures ap <= bp && ap <= 0.5 * p
    ensures ap == bp ==> a == b
  {
    ScaledOrder(a, b, p, ap, bp);
    ScaledOrder(a, 0.5, p, ap, 0.5 * p);
  }

  /** No multiple of 2^e is nearer to x than OnGrid(x, e), and an equally near one leaves it even. */
  lemma GridNearest(x: real, e: int, n: int, y: real)
    requires y == Times(n as real, P2(e))
    ensures Abs(x - OnGrid(x, e)) <= Abs(x - y)
    ensures Abs(x - OnGrid(x, e)) <= 0.5 * P2(e)
    ensures Abs(x - OnGrid(x, e)) == Abs(x - y) && y != OnGrid(x, e) ==> RoundEven(Times(x, P2(-e))) % 2 == 0
  {
    hide P2, RoundEven;
    P2Inverse(e);
    Unscale(x, P2(e), P2(-e));
    var u := Times(x, P2(-e));
    assert x == Times(u, P2(e));
    RoundEvenNearest(u, n);
    ScaledNearest(u, RoundEven(u), n, x, OnGrid(x, e), y, P2(e));
  }

  /** A binary64 value is either on the grid of a coarser number's last place or below its binade. */
  lemma GridOrBelow(y: real, e: int) returns (n: int)
    requires Representable(y)
    requires MIN_EXP <= e
    ensures y == Times(n as real, P2(e)) || (e > MIN_EXP && Abs(y) < P2(e + 52))
  {
    hide P2;
    var m, f :| DyadicBy(y, m, f);
    var p := P2(f);
    if f >= e {
      n := m * Pow2(f - e);
      P2IsPow2(f - e);
      P2Add(f - e, e);
      var q := P2(e);
      assert y == m as real * (Pow2(f - e) as real * q);
      assert n as real == m as real * Pow2(f - e) as real;
      Regroup(m as real, Pow2(f - e) as real, q);
    } else {
      n := 0;
      MagnitudeBelow(y, m, p, P2(f + 53), f);
      P2Monotone(f + 53, e + 52);
    }
  }

  lemma Regroup(a: real, b: real, c: real)
    ensures a * (b * c) == (a * b) * c
  {
  }

  lemma MagnitudeBelow(y: real, m: int, p: real, b: real, f: int)
    requires -TWO_53 < m < TWO_53 && p == P2(f) && y == m as real * p && b == P2(f + 53)
    ensures Abs(y) < b
  {
    hide P2;
    P2Of52();
    P2Add(53, f);
    assert b == TWO_53 as real * p;
    if m >= 0 {
      StrictScale(m as real, TWO_53 as real, p);
    } else {
      StrictScale(-m as real, TWO_53 as real, p);
    }
  }

  lemma StrictScale(a: real, b: real, p: real)
    requires a < b && p > 0.0
    ensures a * p < b * p
    ensures (-a) * p == -(a * p)
  {
  }

  lemma BinadeBottom(e: int)
    ensures Times(TWO_52 as real, P2(e)) == P2(e + 52)
    ensures Times(-TWO_52 as real, P2(e)) == -P2(e + 52)
  {
    P2Of52();
    P2Add(52, e);
    hide P2;
    StrictScale(TWO_52 as real, TWO_53 as real, P2(e));
  }

  /** Nothing representable is nearer to x than its grid point. */
  lemma GridPointNearest(x: real, y: real)
    requires Representable(y)
    requires LastPlace(Abs(x)) <= MAX_EXP
    ensures var e := LastPlace(Abs(x));
            && Abs(x - OnGrid(x, e)) <= Abs(x - y)
            && (Abs(x - OnGrid(x, e)) == Abs(x - y) && y != OnGrid(x, e) ==> RoundEven(Times(x, P2(-e))) % 2 == 0)
  {
    hide P2, OnGrid, RoundEven, Times, Representable, UlpExp, LastPlace;
    var e := LastPlace(Abs(x));
    var n := GridOrBelow(y, e);
    if y == Times(n as real, P2(e)) {
      GridNearest(x, e, n, y);
    } else {
      BinadeBottom(e);
      LastPlaceBracket(Abs(x));
      var k := if x >= 0.0 then TWO_52 else -TWO_52;
      var g := Times(k as real, P2(e));
      GridNearest(x, e, k, g);
      assert Abs(x - g) < Abs(x - y);
    }
  }

  lemma ScaledBound(x: real, u: real, m: int, g: real, p: real, b: real)
    requires p > 0.0 && x == u * p && g == m as real * p && b == TWO_53 as real * p
    requires Abs(x) < b && Abs(u - m as real) <= 0.5
    ensures -TWO_53 <= m <= TWO_53 && Abs(g) <= b
    ensures Abs(g) < b ==> -TWO_53 < m < TWO_53
  {
    var w := Abs(u);
    ScaledDistance(u, x, 0.0, 0.0, p);
    ScaledOrder(TWO_53 as real, w, p, b, Abs(x));
    ScaledDistance(m as real, g, 0.0, 0.0, p);
    ScaledOrder(TWO_53 as real, Abs(m as real), p, b, Abs(g));
    ScaledOrder(Abs(m as real), TWO_53 as real, p, Abs(g), b);
  }

  lemma OnGridRepresentable(x: real, e: int)
    requires MIN_EXP <= e <= MAX_EXP && Abs(x) < P2(e + 53)
    ensures Abs(OnGrid(x, e)) <= P2(e + 53)
    ensures Abs(OnGrid(x, e)) < P2(e + 53) || e < MAX_EXP ==> Representable(OnGrid(x, e))
  {
    hide P2, RoundEven;
    P2Of52();
    P2Add(53, e);
    P2Inverse(e);
    Unscale(x, P2(e), P2(-e));
    var u := Times(x, P2(-e));
    var m := RoundEven(u);
    RoundEvenNearest(u, m);
    ScaledBound(x, u, m, OnGrid(x, e), P2(e), P2(e + 53));
    if -TWO_53 < m < TWO_53 {
      assert DyadicBy(OnGrid(x, e), m, e);
    } else if e < MAX_EXP {
      HalvedSignificand(m, P2(e), OnGrid(x, e), e);
    }
  }

  lemma HalvedSignificand(m: int, p: real, v: real, e: int)
    requires (m == TWO_53 || m == -TWO_53) && p == P2(e) && v == m as real * p && MIN_EXP <= e < MAX_EXP
    ensures Representable(v)
  {
    P2Double(e);
    hide P2;
    assert (m / 2) as real * (2.0 * p) == m as real * p;
    assert DyadicBy(v, m / 2, e + 1);
  }

  /** Round returns a representable value, none is nearer, and a tie is broken to the even one. */
  lemma RoundNearest(x: real)
    ensures Round(x).Valid()
    ensures Round(x).Fin? ==> forall y :: Representable(y) ==>
      && Abs(x - Round(x).v) <= Abs(x - y)
      && (Abs(x - Round(x).v) == Abs(x - y) && y != Round(x).v ==> RoundEven(Times(x, P2(-LastPlace(Abs(x))))) % 2 == 0)
  {
    hide P2;
    var e := LastPlace(Abs(x));
    if e <= MAX_EXP {
      LastPlaceBracket(Abs(x));
      OnGridRepresentable(x, e);
      forall y | Representable(y)
        ensures Abs(x - OnGrid(x, e)) <= Abs(x - y)
        ensures Abs(x - OnGrid(x, e)) == Abs(x - y) && y != OnGrid(x, e) ==> RoundEven(Times(x, P2(-e))) % 2 == 0
      {
        GridPointNearest(x, y);
      }
    }
  }

  // ----- Consequences: exactness, monotonicity, oddness, relative error -----

  lemma {:induction false} UlpExpAtMost(a: real, e: int, k: int)
    requires e <= k <= MAX_EXP && a < P2(k + 53)
    ensures UlpExp(a, e) <= k
    decreases k - e
  {
    if e < k && !(a < P2(e + 53)) { UlpExpAtMost(a, e + 1, k); }
  }

  lemma RoundFinite(x: real, k: int)
    requires MIN_EXP <= k < MAX_EXP && Abs(x) < P2(k + 53)
    ensures Round(x).Fin?
  {
    UlpExpAtMost(Abs(x), MIN_EXP, k);
  }

  /** A representable value rounds to itself. */
  lemma RoundExact(x: real)
    requires Representable(x)
    ensures Round(x) == Fin(x)
  {
    var m, f :| DyadicBy(x, m, f);
    MagnitudeBelow(x, m, P2(f), P2(f + 53), f);
    UlpExpAtMost(Abs(x), MIN_EXP, f);
    var e := LastPlace(Abs(x));
    LastPlaceBracket(Abs(x));
    GridPointNearest(x, x);
    assert OnGrid(x, e) == x;
  }

  lemma TimesNeg(a: real, b: real)
    ensures Times(-a, b) == -Times(a, b)
  {
  }

  lemma OnGridNeg(x: real, e: int)
    ensures OnGrid(-x, e) == -OnGrid(x, e)
  {
    hide P2;
    TimesNeg(x, P2(-e));
    RoundEvenNeg(Times(x, P2(-e)));
    TimesNeg(RoundEven(Times(x, P2(-e))) as real, P2(e));
    hide Times, RoundEven;
  }

  /** Rounding is odd; zero stays zero. */
  lemma RoundNeg(x: real)
    ensures Round(0.0) == Fin(0.0)
    ensures Round(-x) == Round(x).Neg()
  {
    RoundZero();
    OnGridNeg(x, LastPlace(Abs(x)));
    hide OnGrid, P2, LastPlace;
    if x == 0.0 {
      assert -x == x;
    } else {
      assert Abs(-x) == Abs(x);
    }
  }

  lemma RoundZero()
    ensures Round(0.0) == Fin(0.0)
  {
    hide P2;
    assert DyadicBy(0.0, 0, 0);
    RoundExact(0.0);
  }

  lemma RoundEvenTop(u: real, top: int)
    requires top % 2 == 0 && u < top as real
    ensures RoundEven(u) == top <==> u >= top as real - 0.5
  {
    if u >= top as real - 1.0 { assert u.Floor == top - 1; }
  }

  lemma TopOfGrid(a: real, u: real, m: int, p: real, g: real, b: real)
    requires p > 0.0 && a == Times(u, p) && g == Times(m as real, p) && b == Times(TWO_53 as real, p)
    requires a < b && m == RoundEven(u) && m >= 0
    ensures Abs(g) == b <==> a >= b - 0.5 * p
  {
    hide RoundEven;
    ScaledOrder(u, TWO_53 as real, p, a, b);
    ScaledOrder(TWO_53 as real, u, p, b, a);
    RoundEvenTop(u, TWO_53);
    ScaledOrder(TWO_53 as real - 0.5, u, p, b - 0.5 * p, a);
    ScaledOrder(m as real, TWO_53 as real, p, g, b);
    ScaledOrder(0.0, m as real, p, 0.0, g);
    hide Times;
  }

  /** The last binade, for e the greatest exponent. */
  lemma LastBinade(a: real, e: int)
    requires e == MAX_EXP && P2(e + 52) <= a < P2(e + 53)
    ensures Round(a).Fin? <==> a < P2(e + 53) - P2(e - 1)
  {
    hide P2, LastPlace, RoundEven, Times, Abs;
    LastPlaceUnique(a, e);
    P2Of52();
    P2Add(53, e);
    P2Inverse(e);
    P2Double(e - 1);
    var u, p := Times(a, P2(-e)), P2(e);
    Unscaled(a, u, p, P2(-e), e);
    RoundEvenNonneg(u, a, P2(-e));
    NonnegItself(a, P2(e + 52));
    TopOfGrid(a, u, RoundEven(u), p, OnGrid(a, e), P2(e + 53));
  }

  lemma Unscaled(a: real, u: real, p: real, q: real, e: int)
    requires p == P2(e) && q == P2(-e) && u == Times(a, q) && p * q == 1.0
    ensures a == Times(u, p)
    ensures P2(53) * p == Times(P2(53), p)
  {
    Unscale(a, p, q);
  }

  lemma NonnegItself(a: real, b: real)
    requires a >= b > 0.0
    ensures Abs(a) == a
  {
  }

  lemma RoundEvenNonneg(u: real, a: real, q: real)
    requires u == Times(a, q) && a >= 0.0 && q > 0.0
    ensures RoundEven(u) >= 0
  {
    ScaledOrder(0.0, a, q, 0.0, u);
  }

  /** Exactly the reals under 2^1024 - 2^970 in magnitude round to a finite value; the bound is half a
      last place above the largest one. */
  lemma RoundFiniteExactly(x: real)
    ensures Round(x).Fin? <==> Abs(x) < P2(MAX_EXP + 53) - P2(MAX_EXP - 1)
  {
    hide P2, LastPlace, OnGrid;
    var e, a := MAX_EXP, Abs(x);
    RoundNeg(a);
    P2Double(e + 52);
    P2Monotone(e - 1, e + 52);
    LastPlaceBracket(a);
    if a < P2(e + 52) {
      hide Round;
      RoundFinite(a, e - 1);
    } else if a < P2(e + 53) {
      hide Round;
      LastBinade(a, e);
    } else if LastPlace(a) <= e {
      P2Monotone(LastPlace(a) + 53, e + 53);
    }
  }

  /** Rounding never reverses an order. */
  lemma RoundMonotone(a: real, b: real)
    requires a <= b
    ensures Round(a).Fin? && Round(b).Fin? ==> Round(a).v <= Round(b).v
  {
    RoundNearest(a);
    RoundNearest(b);
    hide Round;
    if Round(a).Fin? && Round(b).Fin? {
      var ra, rb := Round(a).v, Round(b).v;
      assert Abs(a - ra) <= Abs(a - rb) && Abs(b - rb) <= Abs(b - ra);
    }
  }

  lemma HalfUlp(e: int)
    ensures 0.5 * P2(e) == Times(P2(e + 52), P2(-53))
  {
    P2Add(e + 52, -53);
    P2Double(e - 1);
    hide P2;
  }

  lemma ScaleUp(a: real, b: real, eps: real)
    requires a >= b && eps > 0.0
    ensures Times(b, eps) <= Times(a, eps)
  {
  }

  /** The relative error of one rounding is at most 2^-53 in the normal range. */
  lemma RoundRelativeError(x: real)
    requires Abs(x) >= P2(MIN_EXP + 52) && Round(x).Fin?
    ensures Abs(x - Round(x).v) <= Times(Abs(x), P2(-53))
  {
    hide P2, OnGrid, UlpExp, RoundEven, Times;
    var e := LastPlace(Abs(x));
    LastPlaceBracket(Abs(x));
    GridNearest(x, e, 0, Times(0 as real, P2(e)));
    HalfUlp(e);
    ScaleUp(Abs(x), P2(e + 52), P2(-53));
  }
}
