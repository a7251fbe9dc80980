/** The proleptic Gregorian calendar on whole days.

    A day is a day number: the count of days since 1970-01-01 (day 0, a
    Thursday). Months are numbered from 0 (January) to 11 (December) and days
    of the month from 1, as the JavaScript `Date` getters report them. */
module Calendar {

  type DayNumber = int

  /** A calendar date as the `Date` getters report it. */
  datatype Civil = Civil(year: int, month: int, day: int)

  predicate IsLeapYear(y: int) {
    y % 4 == 0 && (y % 100 != 0 || y % 400 == 0)
  }

  function DaysInYear(y: int): int {
    if IsLeapYear(y) then 366 else 365
  }

  /** The length of month `m` (0-based) of year `y`. */
  function DaysInMonth(y: int, m: int): int
    requires 0 <= m < 12
  {
    if m == 1 then (if IsLeapYear(y) then 29 else 28)
    else if m == 3 || m == 5 || m == 8 || m == 10 then 30
    else 31
  }

  /** Days of year `y` that come before the first of month `m`; for m == 12
      the length of the year. */
  function DaysBeforeMonth(y: int, m: int): int
    requires 0 <= m <= 12
  {
    var common := [0, 31, 59, 90, 120, 151, 181, 212, 243, 273, 304, 334, 365];
    common[m] + (if IsLeapYear(y) && m >= 2 then 1 else 0)
  }

  lemma DaysBeforeNextMonth(y: int, m: int)
    requires 0 <= m < 12
    ensures DaysBeforeMonth(y, m + 1) == DaysBeforeMonth(y, m) + DaysInMonth(y, m)
    ensures DaysBeforeMonth(y, 12) == DaysInYear(y)
  {
  }

  lemma DaysBeforeMonthMonotone(y: int, i: int, j: int)
    requires 0 <= i < j <= 12
    ensures DaysBeforeMonth(y, i + 1) <= DaysBeforeMonth(y, j)
  {
  }

  /** The day number of January 1 of year `y` (ECMAScript's DayFromYear). */
  function DayFromYear(y: int): DayNumber {
    365 * (y - 1970) + (y - 1969) / 4 - (y - 1901) / 100 + (y - 1601) / 400
  }

  /** Consecutive New Year's days are a year's length apart. */
  lemma DayFromYearStep(y: int)
    ensures DayFromYear(y + 1) == DayFromYear(y) + DaysInYear(y)
  {
    FloorStep(y - 1969, 4);
    FloorStep(y - 1901, 100);
    FloorStep(y - 1601, 400);
    assert (y - 1968) % 4 == y % 4;
    assert (y - 1900) % 100 == y % 100;
    assert (y - 1600) % 400 == y % 400;
  }

  lemma FloorStep(a: int, k: int)
    requires k == 4 || k == 100 || k == 400
    ensures (a + 1) / k == a / k + (if (a + 1) % k == 0 then 1 else 0)
  {
    var q, r := a / k, a % k;
    assert a == k * q + r && 0 <= r < k;
    if r == k - 1 {
      assert a + 1 == k * (q + 1) + 0;
    } else {
      assert a + 1 == k * q + (r + 1);
    }
  }

  /** Four hundred Gregorian years are exactly 146097 days. */
  lemma DayFromYearCycle(q: int)
    ensures DayFromYear(1970 + 400 * q) == 146097 * q
  {
    assert (1 + 400 * q) / 4 == 100 * q;
    assert (69 + 400 * q) / 100 == 4 * q;
    assert (369 + 400 * q) / 400 == q;
  }

  lemma {:induction false} DayFromYearMonotone(a: int, b: int)
    requires a < b
    ensures DayFromYear(a + 1) <= DayFromYear(b)
    decreases b - a
  {
    if a + 1 < b {
      DayFromYearMonotone(a + 1, b);
      DayFromYearStep(a + 1);
    }
  }

  /** The year, counted up from `y`, whose days contain day `n`. */
  function YearFrom(n: DayNumber, y: int): (r: int)
    requires DayFromYear(y) <= n
    ensures y <= r && DayFromYear(r) <= n < DayFromYear(r + 1)
    decreases n - DayFromYear(y)
  {
    DayFromYearStep(y);
    if n < DayFromYear(y + 1) then y else YearFrom(n, y + 1)
  }

  /** The year that contains day `n`. */
  function YearOfDay(n: DayNumber): (r: int)
    ensures DayFromYear(r) <= n < DayFromYear(r + 1)
  {
    var q := n / 146097;
    DayFromYearCycle(q);
    YearFrom(n, 1970 + 400 * q)
  }

  /** The month of year `y`, counted up from `m`, that holds day `doy` of
      the year (0-based). */
  function MonthFrom(y: int, doy: int, m: int): (r: int)
    requires 0 <= m < 12 && DaysBeforeMonth(y, m) <= doy < DaysInYear(y)
    ensures m <= r < 12 && DaysBeforeMonth(y, r) <= doy < DaysBeforeMonth(y, r + 1)
    decreases 12 - m
  {
    DaysBeforeNextMonth(y, m);
    if doy < DaysBeforeMonth(y, m + 1) then m else MonthFrom(y, doy, m + 1)
  }

  predicate ValidCivil(c: Civil) {
    0 <= c.month < 12 && 1 <= c.day <= DaysInMonth(c.year, c.month)
  }

  /** The day number of a calendar date. The day of the month may lie outside
      the month: it then counts on from (or back before) the month's first. */
  function DayFromCivil(y: int, m: int, d: int): DayNumber
    requires 0 <= m < 12
  {
    DayFromYear(y) + DaysBeforeMonth(y, m) + d - 1
  }

  /** The calendar date of day `n`, found by counting years and months. */
  function CivilSearch(n: DayNumber): (c: Civil)
    ensures ValidCivil(c) && DayFromCivil(c.year, c.month, c.day) == n
  {
    var y := YearOfDay(n);
    DayFromYearStep(y);
    var doy := n - DayFromYear(y);
    var m := MonthFrom(y, doy, 0);
    DaysBeforeNextMonth(y, m);
    Civil(y, m, doy - DaysBeforeMonth(y, m) + 1)
  }

  /** The calendar date of day `n`: the one valid date whose day number is
      `n`. */
  function CivilOfDay(n: DayNumber): (c: Civil)
    ensures ValidCivil(c) && DayFromCivil(c.year, c.month, c.day) == n
  {
    // The search result is the witness that such a date exists.
    var w := CivilSearch(n);
    CivilUnique(n);
    var c :| ValidCivil(c) && DayFromCivil(c.year, c.month, c.day) == n;
    c
  }

  lemma CivilUnique(n: DayNumber)
    ensures forall c, d ::
      (ValidCivil(c) && DayFromCivil(c.year, c.month, c.day) == n
       && ValidCivil(d) && DayFromCivil(d.year, d.month, d.day) == n) ==> c == d
  {
    forall c, d | ValidCivil(c) && DayFromCivil(c.year, c.month, c.day) == n
               && ValidCivil(d) && DayFromCivil(d.year, d.month, d.day) == n
      ensures c == d
    {
      SameDay(c, d);
    }
  }

  /** Two valid dates with one day number are the same date. */
  lemma SameDay(c: Civil, d: Civil)
    requires ValidCivil(c) && ValidCivil(d)
    requires DayFromCivil(c.year, c.month, c.day) == DayFromCivil(d.year, d.month, d.day)
    ensures c == d
  {
    var n := DayFromCivil(c.year, c.month, c.day);
    WithinYear(c, n);
    WithinYear(d, n);
    YearUnique(n, c.year, d.year);
    SameMonth(c, d);
  }

  /** A valid date lies within its year. */
  lemma WithinYear(c: Civil, n: DayNumber)
    requires ValidCivil(c) && n == DayFromCivil(c.year, c.month, c.day)
    ensures DayFromYear(c.year) <= n < DayFromYear(c.year + 1)
  {
    DaysBeforeNextMonth(c.year, c.month);
    DaysBeforeMonthMonotone(c.year, c.month, 12);
    DayFromYearStep(c.year);
  }

  /** Within one year, valid dates with one day number are the same date. */
  lemma SameMonth(c: Civil, d: Civil)
    requires ValidCivil(c) && ValidCivil(d) && c.year == d.year
    requires DayFromCivil(c.year, c.month, c.day) == DayFromCivil(d.year, d.month, d.day)
    ensures c == d
  {
    DaysBeforeNextMonth(c.year, c.month);
    DaysBeforeNextMonth(d.year, d.month);
    if d.month < c.month {
      DaysBeforeMonthMonotone(c.year, d.month, c.month);
    } else if c.month < d.month {
      DaysBeforeMonthMonotone(c.year, c.month, d.month);
    }
  }

  /** Only one year brackets a day. */
  lemma YearUnique(n: DayNumber, a: int, b: int)
    requires DayFromYear(a) <= n < DayFromYear(a + 1)
    requires DayFromYear(b) <= n < DayFromYear(b + 1)
    ensures a == b
  {
    if a < b {
      DayFromYearMonotone(a, b);
    } else if b < a {
      DayFromYearMonotone(b, a);
    }
  }

  /** Day numbers and valid calendar dates are in one-to-one correspondence:
      converting a valid date to its day number and back gives the date. */
  lemma CivilRoundTrip(c: Civil)
    requires ValidCivil(c)
    ensures CivilOfDay(DayFromCivil(c.year, c.month, c.day)) == c
  {
    SameDay(CivilOfDay(DayFromCivil(c.year, c.month, c.day)), c);
  }

  /** The weekday of day `n`, 0 for Sunday through 6 for Saturday. */
  function Weekday(n: DayNumber): (w: int)
    ensures 0 <= w < 7
  {
    (n + 4) % 7
  }
}
