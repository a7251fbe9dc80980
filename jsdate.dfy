/** The part of JavaScript's `Date` that the payroll calendar uses, on dates
    at local midnight: the `(year, monthIndex, day)` constructor with its
    carrying of month and day overflow, the local getters, and `setDate`.
    A `Date` is its day number. */
module JsDate {
  import opened Calendar

  /** The constructor reads a year from 0 through 99 as 1900 through 1999. */
  function FullYear(y: int): int {
    if 0 <= y <= 99 then 1900 + y else y
  }

  /** `new Date(y, m, d)`: month `m` carries whole years into the year, and
      day `d` counts from the first of the month, so that day 0 is the last
      day of the month before and day 32 lies in the month after. */
  function MakeDate(y: int, m: int, d: int): DayNumber {
    DayFromCivil(FullYear(y) + m / 12, m % 12, 1) + d - 1
  }

  /** `getFullYear()` */
  function GetFullYear(n: DayNumber): int {
    CivilOfDay(n).year
  }

  /** `getMonth()` */
  function GetMonth(n: DayNumber): (r: int)
    ensures 0 <= r < 12
  {
    CivilOfDay(n).month
  }

  /** `getDate()` */
  function GetDate(n: DayNumber): (r: int)
    ensures 1 <= r <= DaysInMonth(GetFullYear(n), GetMonth(n))
  {
    CivilOfDay(n).day
  }

  /** `getDay()`: 0 for Sunday through 6 for Saturday. */
  function GetDay(n: DayNumber): (r: int)
    ensures 0 <= r < 7
  {
    Weekday(n)
  }

  /** `setDate(dt)`: keeps the year and month of `n` and counts `dt` days from
      that month's first, carrying overflow like the constructor (but without
      its reading of years 0 through 99). */
  function SetDate(n: DayNumber, dt: int): DayNumber {
    DayFromCivil(GetFullYear(n), GetMonth(n), 1) + dt - 1
  }

  /** Every day is the day its getters name. */
  lemma GettersOfDay(n: DayNumber)
    ensures DayFromCivil(GetFullYear(n), GetMonth(n), GetDate(n)) == n
  {
  }

  /** `d.setDate(d.getDate() + k)` moves `d` by exactly `k` days, across month
      and year ends. */
  lemma SetDateShift(n: DayNumber, k: int)
    ensures SetDate(n, GetDate(n) + k) == n + k
  {
    GettersOfDay(n);
  }

  /** The constructor applied to a date that exists makes that date. */
  lemma MakeDateExisting(y: int, m: int, d: int)
    requires 0 <= m < 12 && 1 <= d <= DaysInMonth(FullYear(y), m)
    ensures CivilOfDay(MakeDate(y, m, d)) == Civil(FullYear(y), m, d)
    ensures MakeDate(y, m, d) == DayFromCivil(FullYear(y), m, d)
  {
    assert m / 12 == 0 && m % 12 == m;
    CivilRoundTrip(Civil(FullYear(y), m, d));
  }

  /** A day of the month beyond the month's end, by less than the next
      month's length, rolls into the next month. */
  lemma MakeDateRollsOver(y: int, m: int, d: int)
    requires 0 <= m < 12
    requires DaysInMonth(FullYear(y), m) < d <= DaysInMonth(FullYear(y), m) + 28
    ensures GetMonth(MakeDate(y, m, d)) == (m + 1) % 12
    ensures GetMonth(MakeDate(y, m, d)) != m
    ensures GetDate(MakeDate(y, m, d)) == d - DaysInMonth(FullYear(y), m)
  {
    var fy := FullYear(y);
    var k := d - DaysInMonth(fy, m);
    assert m / 12 == 0 && m % 12 == m;
    DaysBeforeNextMonth(fy, m);
    if m < 11 {
      assert (m + 1) % 12 == m + 1;
      RollInto(MakeDate(y, m, d), Civil(fy, m + 1, k));
    } else {
      assert (m + 1) % 12 == 0;
      DayFromYearStep(fy);
      RollInto(MakeDate(y, m, d), Civil(fy + 1, 0, k));
    }
  }

  lemma RollInto(n: DayNumber, c: Civil)
    requires ValidCivil(c) && n == DayFromCivil(c.year, c.month, c.day)
    ensures GetMonth(n) == c.month && GetDate(n) == c.day
  {
    CivilRoundTrip(c);
  }

  /** `new Date(y, m + 1, 0)` is the last day of month `m`, after carrying
      the month index into the year. */
  lemma LastDayOfMonth(y: int, m: int)
    ensures MakeDate(y, m + 1, 0)
         == DayFromCivil(FullYear(y) + m / 12, m % 12, DaysInMonth(FullYear(y) + m / 12, m % 12))
  {
    var yy, mm := FullYear(y) + m / 12, m % 12;
    DaysBeforeNextMonth(yy, mm);
    if mm < 11 {
      assert (m + 1) / 12 == m / 12 && (m + 1) % 12 == mm + 1;
    } else {
      assert (m + 1) / 12 == m / 12 + 1 && (m + 1) % 12 == 0;
      DayFromYearStep(yy);
    }
  }

  /** The last day of the month, as the constructor makes it and as the
      getters read it. */
  lemma LastDayInMonth(year: int, month: int)
    ensures var last := MakeDate(year, month + 1, 0);
      && GetFullYear(last) == FullYear(year) + month / 12
      && GetMonth(last) == month % 12
      && GetDate(last) == DaysInMonth(FullYear(year) + month / 12, month % 12)
      && last == MakeDate(year, month, 1) + GetDate(last) - 1
  {
    var yy, mm := FullYear(year) + month / 12, month % 12;
    var c := Civil(yy, mm, DaysInMonth(yy, mm));
    LastDayOfMonth(year, month);
    GettersOfCivil(MakeDate(year, month + 1, 0), c);
    assert MakeDate(year, month, 1) == DayFromCivil(yy, mm, 1);
  }

  /** The getters of the day of a valid date read that date. */
  lemma GettersOfCivil(n: DayNumber, c: Civil)
    requires ValidCivil(c) && n == DayFromCivil(c.year, c.month, c.day)
    ensures GetFullYear(n) == c.year && GetMonth(n) == c.month && GetDate(n) == c.day
  {
    CivilRoundTrip(c);
  }

  /** The month-length idiom `new Date(year, monthIndex + 1, 0).getDate()`. */
  function DaysInMonthOfDate(year: int, monthIndex: int): (r: int)
    ensures r == DaysInMonth(FullYear(year) + monthIndex / 12, monthIndex % 12)
    ensures 28 <= r <= 31
  {
    LastDayInMonth(year, monthIndex);
    GetDate(MakeDate(year, monthIndex + 1, 0))
  }
}
