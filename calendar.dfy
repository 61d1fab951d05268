/**
  Proleptic Gregorian calendar arithmetic as Python's `datetime` module does
  it: years 1 through 9999, and day ordinals counted so that 0001-01-01 is
  day 1 (`date.toordinal`). `ToOrdinal` is days-from-civil, `FromOrdinal` is
  its inverse, and subtracting a `timedelta` of whole days is subtraction on
  ordinals.
 */
module Calendar {

  import opened Outcomes

  const MinYear: int := 1
  const MaxYear: int := 9999

  /** The ordinal of 9999-12-31, the last day `datetime` can represent. */
  const MaxOrdinal: int := 3652059

  datatype Date = Date(year: int, month: int, day: int)

  predicate IsLeapYear(y: int)
  {
    y % 4 == 0 && (y % 100 != 0 || y % 400 == 0)
  }

  function DaysInYear(y: int): (n: int)
    ensures n == 365 || n == 366
  {
    if IsLeapYear(y) then 366 else 365
  }

  function DaysInMonth(y: int, m: int): (n: int)
    requires 1 <= m <= 12
    ensures 28 <= n <= 31
  {
    if m == 2 then (if IsLeapYear(y) then 29 else 28)
    else if m == 4 || m == 6 || m == 9 || m == 11 then 30
    else 31
  }

  /** Days in the months of year `y` before month `m` (`m == 13` gives the whole year). */
  function DaysBeforeMonth(y: int, m: int): (n: int)
    requires 1 <= m <= 13
    ensures m == 1 ==> n == 0
    ensures m == 13 ==> n == DaysInYear(y)
  {
    var table := [0, 31, 59, 90, 120, 151, 181, 212, 243, 273, 304, 334, 365];
    table[m - 1] + (if m > 2 && IsLeapYear(y) then 1 else 0)
  }

  lemma DaysBeforeMonthStep(y: int, m: int)
    requires 1 <= m <= 12
    ensures DaysBeforeMonth(y, m + 1) == DaysBeforeMonth(y, m) + DaysInMonth(y, m)
  {
  }

  lemma MonthsBeforeYearEnd(y: int, m: int)
    requires 1 <= m <= 13
    ensures DaysBeforeMonth(y, m) <= DaysInYear(y)
  {
  }

  predicate ValidDate(d: Date)
  {
    MinYear <= d.year <= MaxYear && 1 <= d.month <= 12 && 1 <= d.day <= DaysInMonth(d.year, d.month)
  }

  /** Days in the years 1 .. y-1, one year at a time. */
  function DaysBeforeYear(y: int): (n: int)
    requires y >= 1
    ensures n >= 0
  {
    if y == 1 then 0 else DaysBeforeYear(y - 1) + DaysInYear(y - 1)
  }

  /** The closed form `datetime` uses for the days before year `y`. */
  function DaysBeforeYearClosed(y: int): int
    requires y >= 1
  {
    var p := y - 1;
    p * 365 + p / 4 - p / 100 + p / 400
  }

  /** How the three leap-year counts of the closed form grow from one year to the next. */
  lemma DivStep(a: int)
    requires a >= 0
    ensures (a + 1) / 4 == a / 4 + (if (a + 1) % 4 == 0 then 1 else 0)
    ensures (a + 1) / 100 == a / 100 + (if (a + 1) % 100 == 0 then 1 else 0)
    ensures (a + 1) / 400 == a / 400 + (if (a + 1) % 400 == 0 then 1 else 0)
  {
  }

  /** The closed form grows by the length of the year it passes. */
  lemma ClosedFormStep(y: int)
    requires y >= 1
    ensures DaysBeforeYearClosed(y + 1) == DaysBeforeYearClosed(y) + DaysInYear(y)
  {
    DivStep(y - 1);
    CenturyDivisibility(y);
    var p := y - 1;
    assert DaysBeforeYearClosed(y + 1) - DaysBeforeYearClosed(y)
      == 365 + ((p + 1) / 4 - p / 4) - ((p + 1) / 100 - p / 100) + ((p + 1) / 400 - p / 400);
  }

  lemma CenturyDivisibility(y: int)
    ensures y % 400 == 0 ==> y % 100 == 0
    ensures y % 100 == 0 ==> y % 4 == 0
  {
    if y % 400 == 0 {
      var q := y / 400;
      var m := 4 * q;
      assert y == 400 * q;
      assert y == 100 * m;
    }
    if y % 100 == 0 {
      var q := y / 100;
      var m := 25 * q;
      assert y == 100 * q;
      assert y == 4 * m;
    }
  }

  /** The year-by-year count agrees with the closed form for every year. */
  lemma {:induction false} DaysBeforeYearIsClosedForm(y: int)
    requires y >= 1
    ensures DaysBeforeYear(y) == DaysBeforeYearClosed(y)
  {
    if y > 1 {
      DaysBeforeYearIsClosedForm(y - 1);
      ClosedFormStep(y - 1);
    }
  }

  /** Each year begins strictly after every earlier year. */
  lemma {:induction false} DaysBeforeYearIncreasing(y: int, z: int)
    requires 1 <= y <= z
    ensures DaysBeforeYear(z) - DaysBeforeYear(y) >= 365 * (z - y)
  {
    if y < z {
      DaysBeforeYearIncreasing(y, z - 1);
    }
  }

  /** days-from-civil: the ordinal of a date, 0001-01-01 being day 1. */
  function ToOrdinal(d: Date): (n: int)
    requires ValidDate(d)
    ensures 1 <= n <= MaxOrdinal
  {
    DaysBeforeYearIsClosedForm(d.year);
    DaysBeforeYearIsClosedForm(MaxYear);
    DaysBeforeYearIncreasing(d.year, MaxYear);
    DaysBeforeYear(d.year) + DaysBeforeMonth(d.year, d.month) + d.day
  }

  /**
    The year holding the `n`-th day counted from the start of year `y`, and
    the day of that year.
   */
  function YearOf(n: int, y: int): (r: (int, int))
    requires n >= 1 && y >= 1
    ensures r.0 >= y && 1 <= r.1 <= DaysInYear(r.0)
    ensures n == DaysBeforeYear(r.0) - DaysBeforeYear(y) + r.1
    decreases n
  {
    if n <= DaysInYear(y) then (y, n) else YearOf(n - DaysInYear(y), y + 1)
  }

  /**
    The month holding the `k`-th day counted from the start of month `m` of
    year `y`, and the day of that month.
   */
  function MonthOf(y: int, k: int, m: int): (r: (int, int))
    requires 1 <= m <= 12 && 1 <= k <= DaysInYear(y) - DaysBeforeMonth(y, m)
    ensures m <= r.0 <= 12 && 1 <= r.1 <= DaysInMonth(y, r.0)
    ensures k == DaysBeforeMonth(y, r.0) - DaysBeforeMonth(y, m) + r.1
    decreases 12 - m
  {
    if k <= DaysInMonth(y, m) then (m, k) else MonthOf(y, k - DaysInMonth(y, m), m + 1)
  }

  /** Every ordinal up to MaxOrdinal lies in a year `datetime` can represent. */
  lemma YearOfWithinRange(n: int)
    requires 1 <= n <= MaxOrdinal
    ensures YearOf(n, 1).0 <= MaxYear
  {
    var y := YearOf(n, 1).0;
    DaysBeforeYearIsClosedForm(MaxYear + 1);
    if y > MaxYear {
      DaysBeforeYearIncreasing(MaxYear + 1, y);
    }
  }

  /** civil-from-days: the date whose ordinal is `n`. */
  function FromOrdinal(n: int): (d: Date)
    requires 1 <= n <= MaxOrdinal
    ensures ValidDate(d) && ToOrdinal(d) == n
  {
    YearOfWithinRange(n);
    var (y, k) := YearOf(n, 1);
    var (m, dd) := MonthOf(y, k, 1);
    Date(y, m, dd)
  }

  lemma {:induction false} YearOfDecomposition(y0: int, y: int, k: int)
    requires 1 <= y0 <= y && 1 <= k <= DaysInYear(y)
    requires DaysBeforeYear(y0) <= DaysBeforeYear(y)
    ensures YearOf(DaysBeforeYear(y) - DaysBeforeYear(y0) + k, y0) == (y, k)
    decreases y - y0
  {
    if y0 < y {
      DaysBeforeYearIncreasing(y0 + 1, y);
      YearOfDecomposition(y0 + 1, y, k);
      assert DaysBeforeYear(y0 + 1) == DaysBeforeYear(y0) + DaysInYear(y0);
    }
  }

  lemma {:induction false} MonthOfDecomposition(y: int, m0: int, m: int, k: int)
    requires 1 <= m0 <= m <= 12 && 1 <= k <= DaysInMonth(y, m)
    requires DaysBeforeMonth(y, m) - DaysBeforeMonth(y, m0) + k <= DaysInYear(y) - DaysBeforeMonth(y, m0)
    ensures MonthOf(y, DaysBeforeMonth(y, m) - DaysBeforeMonth(y, m0) + k, m0) == (m, k)
    decreases m - m0
  {
    if m0 < m {
      DaysBeforeMonthStep(y, m0);
      MonthOfDecomposition(y, m0 + 1, m, k);
    }
  }

  /** Converting a valid date to its ordinal and back gives the same date. */
  lemma FromOrdinalToOrdinal(d: Date)
    requires ValidDate(d)
    ensures FromOrdinal(ToOrdinal(d)) == d
  {
    var k := DaysBeforeMonth(d.year, d.month) + d.day;
    DaysBeforeMonthStep(d.year, d.month);
    assert k <= DaysInYear(d.year) by {
      if d.month < 12 {
        MonthsBeforeYearEnd(d.year, d.month + 1);
      }
    }
    DaysBeforeYearIncreasing(1, d.year);
    YearOfDecomposition(1, d.year, k);
    assert YearOf(ToOrdinal(d), 1) == (d.year, k);
    MonthOfDecomposition(d.year, 1, d.month, d.day);
    assert MonthOf(d.year, k, 1) == (d.month, d.day);
  }

  /** Two valid dates with the same ordinal are the same date. */
  lemma ToOrdinalInjective(a: Date, b: Date)
    requires ValidDate(a) && ValidDate(b) && ToOrdinal(a) == ToOrdinal(b)
    ensures a == b
  {
    FromOrdinalToOrdinal(a);
    FromOrdinalToOrdinal(b);
  }

  /** Calendar order: by year, then month, then day. */
  predicate NoLaterThan(a: Date, b: Date)
  {
    a.year < b.year || (a.year == b.year && (a.month < b.month || (a.month == b.month && a.day <= b.day)))
  }

  lemma {:induction false} DaysBeforeMonthIncreasing(y: int, m: int, n: int)
    requires 1 <= m < n <= 13
    ensures DaysBeforeMonth(y, m) + DaysInMonth(y, m) <= DaysBeforeMonth(y, n)
    decreases n - m
  {
    DaysBeforeMonthStep(y, m);
    if m + 1 < n {
      DaysBeforeMonthIncreasing(y, m + 1, n);
    }
  }

  /** A date's ordinal is below the first ordinal of any later year. */
  lemma OrdinalBeforeLaterYear(d: Date, z: int)
    requires ValidDate(d) && d.year < z
    ensures ToOrdinal(d) <= DaysBeforeYear(z)
  {
    if d.month < 12 {
      DaysBeforeMonthIncreasing(d.year, d.month, 13);
    }
    DaysBeforeYearIncreasing(d.year + 1, z);
  }

  /** Ordinals put valid dates in calendar order: days-from-civil is strictly increasing. */
  lemma ToOrdinalMonotone(a: Date, b: Date)
    requires ValidDate(a) && ValidDate(b)
    ensures NoLaterThan(a, b) <==> ToOrdinal(a) <= ToOrdinal(b)
  {
    if a.year < b.year {
      OrdinalBeforeLaterYear(a, b.year);
    } else if b.year < a.year {
      OrdinalBeforeLaterYear(b, a.year);
    } else if a.month < b.month {
      DaysBeforeMonthIncreasing(a.year, a.month, b.month);
    } else if b.month < a.month {
      DaysBeforeMonthIncreasing(a.year, b.month, a.month);
    }
  }

  /**
    `d - timedelta(days=k)`: fails (Python raises OverflowError) when the
    result would fall before 0001-01-01.
   */
  function SubtractDays(d: Date, k: nat): (r: Option<Date>)
    requires ValidDate(d)
    ensures r.Some? <==> ToOrdinal(d) - k >= 1
    ensures r.Some? ==> ValidDate(r.value) && ToOrdinal(r.value) == ToOrdinal(d) - k
  {
    var n := ToOrdinal(d) - k;
    if n < 1 then None else Some(FromOrdinal(n))
  }
}
