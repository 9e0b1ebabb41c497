/** The proleptic Gregorian calendar: day numbers and dates in both directions. */
module Calendar {

  datatype Date = Date(year: int, month: int, day: int)

  predicate IsLeap(y: int) { y % 4 == 0 && (y % 100 != 0 || y % 400 == 0) }

  function YearLength(y: int): int { if IsLeap(y) then 366 else 365 }

  function MonthLength(y: int, m: int): int {
    if m == 2 then (if IsLeap(y) then 29 else 28)
    else if m == 4 || m == 6 || m == 9 || m == 11 then 30
    else 31
  }

  predicate IsDate(d: Date) {
    1 <= d.month <= 12 && 1 <= d.day <= MonthLength(d.year, d.month)
  }

  /** Days from 1 January of year 0 to 1 January of year y. */
  function DaysBeforeYear(y: int): int {
    365 * y + (y + 3) / 4 - (y + 99) / 100 + (y + 399) / 400
  }

  /** Days of year y before month m. */
  function DaysBeforeMonth(y: int, m: int): int
    requires 1 <= m <= 13
    decreases m
  {
    if m == 1 then 0 else DaysBeforeMonth(y, m - 1) + MonthLength(y, m - 1)
  }

  function DayNumber(d: Date): int
    requires IsDate(d)
  {
    DaysBeforeYear(d.year) + DaysBeforeMonth(d.year, d.month) + d.day - 1
  }

  /** One more of the years before y + 1 than before y is a multiple of n exactly when y is one. */
  lemma MultiplesStep(y: int, n: int, q: int, r: int)
    requires n > 1 && y == n * q + r && 0 <= r < n
    ensures (y + 1 + (n - 1)) / n == q + 1
    ensures (y + (n - 1)) / n == if r == 0 then q else q + 1
  {
    QuotientIs(y + n, n, q + 1, r);
    if r == 0 { QuotientIs(y + n - 1, n, q, n - 1); } else { QuotientIs(y + n - 1, n, q + 1, r - 1); }
  }

  lemma QuotientIs(a: int, n: int, q: int, r: int)
    requires a == n * q + r && 0 <= r < n
    ensures a / n == q
  {
    var d := a / n - q;
    assert d * n == r - a % n;
    AtLeastOnce(d, n);
  }

  lemma AtLeastOnce(d: int, n: int)
    requires n > 0
    ensures d >= 1 ==> d * n >= n
    ensures d <= -1 ==> d * n <= -n
  {
  }

  lemma YearStep(y: int)
    ensures DaysBeforeYear(y + 1) == DaysBeforeYear(y) + YearLength(y)
  {
    MultiplesStep(y, 4, y / 4, y % 4);
    MultiplesStep(y, 100, y / 100, y % 100);
    MultiplesStep(y, 400, y / 400, y % 400);
    Nested(y);
  }

  lemma Nested(y: int)
    ensures y % 400 == 0 ==> y % 100 == 0
    ensures y % 100 == 0 ==> y % 4 == 0
  {
  }

  lemma {:induction false} YearsAscend(x: int, y: int)
    requires x <= y
    ensures DaysBeforeYear(x) <= DaysBeforeYear(y)
    decreases y - x
  {
    if x < y {
      YearsAscend(x, y - 1);
      YearStep(y - 1);
      hide DaysBeforeYear;
    }
  }

  lemma {:induction false} MonthsAscend(y: int, m: int, n: int)
    requires 1 <= m <= n <= 13
    ensures DaysBeforeMonth(y, m) <= DaysBeforeMonth(y, n)
    decreases n - m
  {
    if m < n { MonthsAscend(y, m, n - 1); }
  }

  lemma MonthStep(y: int, m: int)
    requires 1 <= m <= 12
    ensures DaysBeforeMonth(y, m + 1) == DaysBeforeMonth(y, m) + MonthLength(y, m)
  {
  }

  lemma WholeYear(y: int)
    ensures DaysBeforeMonth(y, 13) == YearLength(y)
  {
    assert DaysBeforeMonth(y, 4) == MonthLength(y, 1) + MonthLength(y, 2) + MonthLength(y, 3);
    assert DaysBeforeMonth(y, 7) == DaysBeforeMonth(y, 4) + 91;
    assert DaysBeforeMonth(y, 10) == DaysBeforeMonth(y, 7) + 92;
    assert DaysBeforeMonth(y, 13) == DaysBeforeMonth(y, 10) + 92;
  }

  /** The year a day falls in, searched from a year y on. */
  function YearFrom(n: int, y: int): (r: int)
    ensures DaysBeforeYear(r) <= n < DaysBeforeYear(r + 1)
    decreases if n < DaysBeforeYear(y) then DaysBeforeYear(y) - n
              else if n >= DaysBeforeYear(y + 1) then n - DaysBeforeYear(y) + 1 else 0
  {
    YearStep(y);
    YearStep(y - 1);
    if n < DaysBeforeYear(y) then YearFrom(n, y - 1)
    else if n >= DaysBeforeYear(y + 1) then YearFrom(n, y + 1)
    else y
  }

  function MonthFrom(y: int, k: int, m: int): (r: int)
    requires 1 <= m <= 12 && DaysBeforeMonth(y, m) <= k < DaysBeforeMonth(y, 13)
    ensures 1 <= r <= 12 && DaysBeforeMonth(y, r) <= k < DaysBeforeMonth(y, r + 1)
    decreases 12 - m
  {
    if k < DaysBeforeMonth(y, m + 1) then m else MonthFrom(y, k, m + 1)
  }

  /** The date of a day number. */
  function DateOf(n: int): (d: Date)
    ensures IsDate(d) && DayNumber(d) == n
  {
    var y := YearFrom(n, 0);
    YearStep(y);
    WholeYear(y);
    var k := n - DaysBeforeYear(y);
    var m := MonthFrom(y, k, 1);
    Date(y, m, k - DaysBeforeMonth(y, m) + 1)
  }

  lemma YearUnique(n: int, x: int, y: int)
    ensures DaysBeforeYear(x) <= n < DaysBeforeYear(x + 1) && DaysBeforeYear(y) <= n < DaysBeforeYear(y + 1) ==> x == y
  {
    if x < y { YearsAscend(x + 1, y); }
    if y < x { YearsAscend(y + 1, x); }
    hide DaysBeforeYear;
  }

  lemma MonthUnique(y: int, d: Date, e: Date)
    requires IsDate(d) && IsDate(e) && d.year == e.year == y
    requires DaysBeforeMonth(y, d.month) + d.day == DaysBeforeMonth(y, e.month) + e.day
    ensures d == e
  {
    hide MonthLength, DaysBeforeMonth;
    MonthStep(y, d.month);
    MonthStep(y, e.month);
    if d.month < e.month { MonthsAscend(y, d.month + 1, e.month); }
    if e.month < d.month { MonthsAscend(y, e.month + 1, d.month); }
  }

  /** A date is determined by its day number. */
  lemma DayNumberInjective(d: Date, e: Date)
    requires IsDate(d) && IsDate(e) && DayNumber(d) == DayNumber(e)
    ensures d == e
  {
    hide DaysBeforeYear, DaysBeforeMonth, IsDate;
    InYear(d);
    InYear(e);
    YearUnique(DayNumber(d), d.year, e.year);
    MonthUnique(d.year, d, e);
  }

  lemma InYear(d: Date)
    requires IsDate(d)
    ensures DaysBeforeYear(d.year) <= DayNumber(d) < DaysBeforeYear(d.year + 1)
  {
    YearStep(d.year);
    WholeYear(d.year);
    MonthsAscend(d.year, 1, d.month);
    MonthsAscend(d.year, d.month + 1, 13);
    hide DaysBeforeYear;
  }

  // ----- A closed form -----

  lemma CeilingIs(y: int, n: int)
    requires n > 1
    ensures (y + (n - 1)) / n == (y - 1) / n + 1
    ensures (y + (n - 1)) / n == y / n + if y % n == 0 then 0 else 1
  {
    MultiplesStep(y, n, y / n, y % n);
    MultiplesStep(y - 1, n, (y - 1) / n, (y - 1) % n);
  }

  /** From March on the lengths of the months follow the slope of 153 days in five. */
  lemma {:induction false} MonthsFormula(y: int, m: int)
    requires 3 <= m <= 12
    ensures DaysBeforeMonth(y, m) == 59 + (if IsLeap(y) then 1 else 0) + (153 * (m - 3) + 2) / 5
    decreases m
  {
    if m == 3 {
      assert DaysBeforeMonth(y, 2) == 31;
    } else {
      MonthsFormula(y, m - 1);
    }
  }

  lemma FirstMonths(y: int)
    ensures DaysBeforeMonth(y, 1) == 0 && DaysBeforeMonth(y, 2) == 31
  {
  }

  /** The day number in closed form, for years taken to begin with March. */
  lemma DayNumberFormula(d: Date)
    requires IsDate(d)
    ensures var y := if d.month <= 2 then d.year - 1 else d.year;
            var month := if d.month <= 2 then d.month + 9 else d.month - 3;
            DayNumber(d) == 365 * y + y / 4 - y / 100 + y / 400 + (153 * month + 2) / 5 + d.day + 59
  {
    hide DaysBeforeMonth, DaysBeforeYear, MonthLength, IsLeap;
    YearsFormula(d.year);
    FirstMonths(d.year);
    if d.month > 2 { MonthsFormula(d.year, d.month); }
  }

  lemma YearsFormula(y: int)
    ensures DaysBeforeYear(y) == 365 * y + y / 4 - y / 100 + y / 400 + if IsLeap(y) then 0 else 1
    ensures DaysBeforeYear(y) == 365 * y + (y - 1) / 4 - (y - 1) / 100 + (y - 1) / 400 + 1
  {
    CeilingIs(y, 4);
    CeilingIs(y, 100);
    CeilingIs(y, 400);
    Nested(y);
  }
}
