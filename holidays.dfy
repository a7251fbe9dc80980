/** The holidays the calendar marks: four on fixed dates and four on the
    n-th or last weekday of a month, with no shifting of a holiday that
    falls on a weekend. */
module Holidays {
  import opened Wrappers
  import opened Calendar
  import opened JsDate
  import opened DateKeys
  import opened Text

  /** Division truncated toward zero, for a positive divisor. */
  function TruncDiv(a: int, n: int): int
    requires n > 0
  {
    if a >= 0 then a / n else 0 - (-a) / n
  }

  /** JavaScript's `%` for a positive divisor: what is left of `a` after
      taking away the truncated quotient's multiple of `n`, so that the
      remainder takes the sign of the dividend. */
  function JsRem(a: int, n: int): (r: int)
    requires n > 0
    ensures a == n * TruncDiv(a, n) + r
    ensures -n < r < n
    ensures a >= 0 ==> r >= 0
    ensures a <= 0 ==> r <= 0
  {
    if a >= 0 then a % n else 0 - (-a) % n
  }

  /** `nthWeekdayOfMonth(year, month, weekday, nth)`: the first of the month
      plus the days to the first `weekday`, plus `nth - 1` weeks. */
  function NthWeekdayOfMonth(year: int, month: int, weekday: int, nth: int): DayNumber {
    var first := MakeDate(year, month, 1);
    var firstWeekday := GetDay(first);
    var day := 1 + JsRem(7 + weekday - firstWeekday, 7) + (nth - 1) * 7;
    MakeDate(year, month, day)
  }

  /** `lastWeekdayOfMonth(year, month, weekday)`: the last day of the month,
      less the days back to the last `weekday`. */
  function LastWeekdayOfMonth(year: int, month: int, weekday: int): DayNumber {
    var last := MakeDate(year, month + 1, 0);
    var lastDay := GetDate(last);
    var lastWeekday := GetDay(last);
    var diff := DaysBack(lastWeekday, weekday);
    MakeDate(year, month, lastDay - diff)
  }

  /** `(7 + lastWeekday - weekday) % 7`: how many days before a day of weekday
      `lastWeekday` the nearest day of weekday `weekday` lies. */
  function DaysBack(lastWeekday: int, weekday: int): int {
    JsRem(7 + lastWeekday - weekday, 7)
  }

  /** The first of month `month` counted from `year`, after the constructor
      carries the month index into the year. */
  lemma FirstOfMonth(year: int, month: int, day: int)
    ensures MakeDate(year, month, day) == MakeDate(year, month, 1) + day - 1
    ensures MakeDate(year, month, day) == DayFromCivil(FullYear(year) + month / 12, month % 12, day)
  {
  }

  /** The day `k` days after `n` falls `k` weekdays later. */
  lemma WeekdayAfter(n: DayNumber, k: int)
    ensures GetDay(n + k) == (GetDay(n) + k) % 7
  {
  }

  /** A weekday from 0 to 6 is its own remainder. */
  lemma WeekdayInWeek(n: DayNumber, weekday: int)
    requires 0 <= weekday < 7 && GetDay(n) == weekday % 7
    ensures GetDay(n) == weekday
  {
  }

  /** Whole weeks do not change a weekday. */
  lemma WholeWeeks(k: int, w: int)
    ensures (7 * k + w) % 7 == w % 7
  {
  }

  /** Whatever the month and `nth`, the result falls on `weekday`. */
  lemma NthWeekdayOfMonthWeekday(year: int, month: int, weekday: int, nth: int)
    ensures GetDay(NthWeekdayOfMonth(year, month, weekday, nth)) == weekday % 7
  {
    var first := MakeDate(year, month, 1);
    var x := 7 + weekday - GetDay(first);
    var k := JsRem(x, 7) + (nth - 1) * 7;
    FirstOfMonth(year, month, 1 + k);
    WeekdayAfter(first, k);
    var t := TruncDiv(x, 7);
    assert GetDay(first) + k == 7 * (nth - t) + weekday;
    WholeWeeks(nth - t, weekday);
  }

  /** For a weekday from Sunday (0) to Saturday (6) and `nth` from 1 to 4,
      the result is the `nth` such weekday of the month: it lies in the
      month, in its `nth` week of days. */
  lemma NthWeekdayOfMonthInMonth(year: int, month: int, weekday: int, nth: int)
    requires 0 <= weekday < 7 && 1 <= nth <= 4
    ensures var r := NthWeekdayOfMonth(year, month, weekday, nth);
      && GetFullYear(r) == FullYear(year) + month / 12
      && GetMonth(r) == month % 12
      && (nth - 1) * 7 < GetDate(r) <= nth * 7
  {
    var yy, mm := FullYear(year) + month / 12, month % 12;
    var first := MakeDate(year, month, 1);
    var rem := JsRem(7 + weekday - GetDay(first), 7);
    assert 0 <= rem < 7;
    var day := 1 + rem + (nth - 1) * 7;
    var r := NthWeekdayOfMonth(year, month, weekday, nth);
    FirstOfMonth(year, month, day);
    assert r == DayFromCivil(yy, mm, day);
    var c := Civil(yy, mm, day);
    assert ValidCivil(c);
    CivilRoundTrip(c);
    assert CivilOfDay(r) == c;
  }

  /** Whatever the month, the result falls on `weekday`. */
  lemma LastWeekdayOfMonthWeekday(year: int, month: int, weekday: int)
    ensures GetDay(LastWeekdayOfMonth(year, month, weekday)) == weekday % 7
  {
    LastWeekdayOfMonthIsBack(year, month, weekday);
    DaysBackWeekday(MakeDate(year, month + 1, 0), DaysBack(GetDay(MakeDate(year, month + 1, 0)), weekday), weekday);
  }

  /** The result lies `diff` days before the month's last day. */
  lemma LastWeekdayOfMonthIsBack(year: int, month: int, weekday: int)
    ensures LastWeekdayOfMonth(year, month, weekday)
         == MakeDate(year, month + 1, 0) - DaysBack(GetDay(MakeDate(year, month + 1, 0)), weekday)
  {
    LastDayInMonth(year, month);
    FirstOfMonth(year, month, GetDate(MakeDate(year, month + 1, 0)) - DaysBack(GetDay(MakeDate(year, month + 1, 0)), weekday));
  }

  /** Going back from day `last` by the distance the source computes
      reaches a day of weekday `weekday`. */
  lemma DaysBackWeekday(last: DayNumber, diff: int, weekday: int)
    requires diff == DaysBack(GetDay(last), weekday)
    ensures GetDay(last - diff) == weekday % 7
  {
    WeekdayAfter(last, -diff);
    BackToWeekday(GetDay(last), weekday);
  }

  /** Going back from weekday `lastWeekday` by the distance the source
      computes reaches `weekday`, and for weekdays from 0 to 6 it goes back
      less than a week. */
  lemma BackToWeekday(lastWeekday: int, weekday: int)
    ensures (lastWeekday - DaysBack(lastWeekday, weekday)) % 7 == weekday % 7
    ensures 0 <= lastWeekday < 7 && 0 <= weekday < 7 ==> 0 <= DaysBack(lastWeekday, weekday) < 7
  {
    var q := TruncDiv(7 + lastWeekday - weekday, 7);
    WholeWeeks(q - 1, weekday);
  }

  /** A day of the month, given by its number `d`, as the constructor makes
      it. */
  lemma InMonth(year: int, month: int, d: int)
    requires 1 <= d <= DaysInMonth(FullYear(year) + month / 12, month % 12)
    ensures CivilOfDay(MakeDate(year, month, d)) == Civil(FullYear(year) + month / 12, month % 12, d)
  {
    FirstOfMonth(year, month, d);
    CivilRoundTrip(Civil(FullYear(year) + month / 12, month % 12, d));
  }

  /** For a weekday from Sunday (0) to Saturday (6), the result lies in the
      month, within its last seven days. */
  lemma LastWeekdayOfMonthInMonth(year: int, month: int, weekday: int)
    requires 0 <= weekday < 7
    ensures var r := LastWeekdayOfMonth(year, month, weekday);
      var yy, mm := FullYear(year) + month / 12, month % 12;
      && GetFullYear(r) == yy && GetMonth(r) == mm
      && DaysInMonth(yy, mm) - 7 < GetDate(r) <= DaysInMonth(yy, mm)
  {
    assert CivilOfDay(LastWeekdayOfMonth(year, month, weekday))
        == Civil(FullYear(year) + month / 12, month % 12,
                 GetDate(MakeDate(year, month + 1, 0)) - DaysBack(GetDay(MakeDate(year, month + 1, 0)), weekday)) by {
      LastWeekdayOfMonthCivil(year, month, weekday);
    }
    assert GetDate(MakeDate(year, month + 1, 0)) == DaysInMonth(FullYear(year) + month / 12, month % 12) by {
      LastDayInMonth(year, month);
    }
    assert 0 <= DaysBack(GetDay(MakeDate(year, month + 1, 0)), weekday) < 7 by {
      BackToWeekday(GetDay(MakeDate(year, month + 1, 0)), weekday);
    }
    InLastWeek(LastWeekdayOfMonth(year, month, weekday), FullYear(year) + month / 12, month,
      GetDate(MakeDate(year, month + 1, 0)), DaysBack(GetDay(MakeDate(year, month + 1, 0)), weekday));
  }

  lemma InLastWeek(r: DayNumber, yy: int, month: int, lastDay: int, diff: int)
    requires lastDay == DaysInMonth(yy, month % 12) && 0 <= diff < 7
    requires CivilOfDay(r) == Civil(yy, month % 12, lastDay - diff)
    ensures GetFullYear(r) == yy && GetMonth(r) == month % 12
    ensures DaysInMonth(yy, month % 12) - 7 < GetDate(r) <= DaysInMonth(yy, month % 12)
  {
  }

  /** For a weekday from Sunday (0) to Saturday (6), no day of the month
      after the result falls on that weekday: the result is the month's last
      such weekday. */
  lemma LastWeekdayOfMonthIsLast(year: int, month: int, weekday: int)
    requires 0 <= weekday < 7
    ensures var r := LastWeekdayOfMonth(year, month, weekday);
      forall n :: r < n && GetFullYear(n) == GetFullYear(r) && GetMonth(n) == GetMonth(r) ==> GetDay(n) != weekday
  {
    LastWeekdayOfMonthInMonth(year, month, weekday);
    LastWeekdayOfMonthWeekday(year, month, weekday);
    WeekdayInWeek(LastWeekdayOfMonth(year, month, weekday), weekday);
    NoLaterWeekday(LastWeekdayOfMonth(year, month, weekday), FullYear(year) + month / 12, month, weekday);
  }

  /** A day in the last week of its month is the last of its weekday in the
      month. */
  lemma NoLaterWeekday(r: DayNumber, yy: int, month: int, weekday: int)
    requires GetFullYear(r) == yy && GetMonth(r) == month % 12
    requires DaysInMonth(yy, month % 12) - 7 < GetDate(r) && GetDay(r) == weekday
    ensures forall n :: r < n && GetFullYear(n) == GetFullYear(r) && GetMonth(n) == GetMonth(r) ==> GetDay(n) != weekday
  {
    forall n | r < n && GetFullYear(n) == GetFullYear(r) && GetMonth(n) == GetMonth(r)
      ensures GetDay(n) != weekday
    {
      SameMonthGap(r, n);
      WeekdayDiffers(r, n - r);
    }
  }

  /** Two days of one month lie less than the month's length apart. */
  lemma SameMonthGap(r: DayNumber, n: DayNumber)
    requires GetFullYear(n) == GetFullYear(r) && GetMonth(n) == GetMonth(r)
    ensures n - r == GetDate(n) - GetDate(r)
  {
    GettersOfDay(n);
    GettersOfDay(r);
  }

  /** Fewer than seven days later the weekday is another. */
  lemma WeekdayDiffers(r: DayNumber, k: int)
    requires 0 < k < 7
    ensures GetDay(r + k) != GetDay(r)
  {
  }

  /** The calendar date of the result: the month's last day less the
      distance back. */
  lemma LastWeekdayOfMonthCivil(year: int, month: int, weekday: int)
    requires 0 <= weekday < 7
    ensures CivilOfDay(LastWeekdayOfMonth(year, month, weekday))
         == Civil(FullYear(year) + month / 12, month % 12,
                  GetDate(MakeDate(year, month + 1, 0)) - DaysBack(GetDay(MakeDate(year, month + 1, 0)), weekday))
  {
    LastDayInMonth(year, month);
    BackToWeekday(GetDay(MakeDate(year, month + 1, 0)), weekday);
    LastWeekdayOfMonthAt(year, month, weekday,
      GetDate(MakeDate(year, month + 1, 0)) - DaysBack(GetDay(MakeDate(year, month + 1, 0)), weekday));
  }

  lemma LastWeekdayOfMonthAt(year: int, month: int, weekday: int, d: int)
    requires d == GetDate(MakeDate(year, month + 1, 0)) - DaysBack(GetDay(MakeDate(year, month + 1, 0)), weekday)
    requires 1 <= d <= DaysInMonth(FullYear(year) + month / 12, month % 12)
    ensures CivilOfDay(LastWeekdayOfMonth(year, month, weekday)) == Civil(FullYear(year) + month / 12, month % 12, d)
  {
    assert LastWeekdayOfMonth(year, month, weekday) == MakeDate(year, month, d);
    InMonth(year, month, d);
  }

  /** The holidays the calendar marks. */
  datatype Holiday =
    | NewYearsDay | MlkDay | MemorialDay | IndependenceDay
    | LaborDay | Thanksgiving | Christmas | Juneteenth

  /** The label shown for a holiday. */
  function Label(h: Holiday): string {
    match h
    case NewYearsDay => "New Year's Day"
    case MlkDay => "MLK Day"
    case MemorialDay => "Memorial Day"
    case IndependenceDay => "Independence Day"
    case LaborDay => "Labor Day"
    case Thanksgiving => "Thanksgiving"
    case Christmas => "Christmas"
    case Juneteenth => "Juneteenth"
  }

  /** The calendar rule of each holiday in year `fy`: January 1; the third
      Monday of January; the last Monday of May (May has 31 days); July 4;
      the first Monday of September; the fourth Thursday of November;
      December 25; June 19. */
  predicate IsHoliday(h: Holiday, fy: int, n: DayNumber) {
    var m, d, w := GetMonth(n), GetDate(n), GetDay(n);
    GetFullYear(n) == fy &&
    match h
    case NewYearsDay => m == 0 && d == 1
    case MlkDay => m == 0 && w == 1 && 14 < d <= 21
    case MemorialDay => m == 4 && w == 1 && 24 < d
    case IndependenceDay => m == 6 && d == 4
    case LaborDay => m == 8 && w == 1 && d <= 7
    case Thanksgiving => m == 10 && w == 4 && 21 < d <= 28
    case Christmas => m == 11 && d == 25
    case Juneteenth => m == 5 && d == 19
  }

  /** The `nth` weekday of a month from 0 to 11 keeps the rule "the `nth`
      `weekday` of the month". */
  lemma NthRule(year: int, month: int, weekday: int, nth: int)
    requires 0 <= month < 12 && 0 <= weekday < 7 && 1 <= nth <= 4
    ensures var r := NthWeekdayOfMonth(year, month, weekday, nth);
      && GetFullYear(r) == FullYear(year) && GetMonth(r) == month
      && GetDay(r) == weekday && (nth - 1) * 7 < GetDate(r) <= nth * 7
  {
    NthWeekdayOfMonthInMonth(year, month, weekday, nth);
    NthWeekdayOfMonthWeekday(year, month, weekday, nth);
    WeekdayInWeek(NthWeekdayOfMonth(year, month, weekday, nth), weekday);
  }

  /** The last weekday of a month from 0 to 11 keeps the rule "the last
      `weekday` of the month". */
  lemma LastRule(year: int, month: int, weekday: int)
    requires 0 <= month < 12 && 0 <= weekday < 7
    ensures var r := LastWeekdayOfMonth(year, month, weekday);
      && GetFullYear(r) == FullYear(year) && GetMonth(r) == month && GetDay(r) == weekday
      && DaysInMonth(FullYear(year), month) - 7 < GetDate(r)
  {
    LastWeekdayOfMonthInMonth(year, month, weekday);
    LastWeekdayOfMonthWeekday(year, month, weekday);
    WeekdayInWeek(LastWeekdayOfMonth(year, month, weekday), weekday);
  }

  /** Each rule picks at most one day of a year. */
  lemma RuleUnique(h: Holiday, fy: int, n: DayNumber, d: DayNumber)
    requires IsHoliday(h, fy, n) && IsHoliday(h, fy, d)
    ensures n == d
  {
    SameWeekOfMonth(n, d);
  }

  /** Two days of one month with one weekday, less than a week apart in
      the month, are the same day. */
  lemma SameWeekOfMonth(a: DayNumber, b: DayNumber)
    requires GetFullYear(a) == GetFullYear(b) && GetMonth(a) == GetMonth(b)
    requires GetDay(a) == GetDay(b) || GetDate(a) == GetDate(b)
    requires -7 < GetDate(a) - GetDate(b) < 7
    ensures a == b
  {
    SameMonthGap(a, b);
    if a < b {
      WeekdayDiffers(a, b - a);
    } else if b < a {
      WeekdayDiffers(b, a - b);
    }
  }

  /** `computeHolidays(year)`: the map from the key of each holiday's date to
      its label, each `add(d, label)` setting one entry, in the source's
      order. It holds exactly the days of year `FullYear(year)` that keep a
      holiday's rule, under their labels: eight keys, as no two holidays
      share a day. */
  method ComputeHolidays(year: int) returns (holidays: map<string, string>)
    ensures |holidays| == 8
    ensures forall n :: IsoLocal(n) in holidays <==> exists h :: IsHoliday(h, FullYear(year), n)
    ensures forall h, n :: IsHoliday(h, FullYear(year), n) ==> holidays[IsoLocal(n)] == Label(h)
    ensures forall key :: key in holidays ==> exists n :: GetFullYear(n) == FullYear(year) && key == IsoLocal(n)
  {
    holidays := map[];
    holidays := holidays[IsoLocal(MakeDate(year, 0, 1)) := Label(NewYearsDay)];
    holidays := holidays[IsoLocal(NthWeekdayOfMonth(year, 0, 1, 3)) := Label(MlkDay)];
    holidays := holidays[IsoLocal(LastWeekdayOfMonth(year, 4, 1)) := Label(MemorialDay)];
    holidays := holidays[IsoLocal(MakeDate(year, 6, 4)) := Label(IndependenceDay)];
    holidays := holidays[IsoLocal(NthWeekdayOfMonth(year, 8, 1, 1)) := Label(LaborDay)];
    holidays := holidays[IsoLocal(NthWeekdayOfMonth(year, 10, 4, 4)) := Label(Thanksgiving)];
    holidays := holidays[IsoLocal(MakeDate(year, 11, 25)) := Label(Christmas)];
    holidays := holidays[IsoLocal(MakeDate(year, 5, 19)) := Label(Juneteenth)];
    HolidayRules(year);
    HolidayMap(FullYear(year), holidays,
      MakeDate(year, 0, 1), NthWeekdayOfMonth(year, 0, 1, 3), LastWeekdayOfMonth(year, 4, 1), MakeDate(year, 6, 4),
      NthWeekdayOfMonth(year, 8, 1, 1), NthWeekdayOfMonth(year, 10, 4, 4), MakeDate(year, 11, 25), MakeDate(year, 5, 19));
  }

  /** The dates `computeHolidays` makes for `year` keep the holidays' rules. */
  lemma HolidayRules(year: int)
    ensures HolidayDates(FullYear(year),
      MakeDate(year, 0, 1), NthWeekdayOfMonth(year, 0, 1, 3), LastWeekdayOfMonth(year, 4, 1), MakeDate(year, 6, 4),
      NthWeekdayOfMonth(year, 8, 1, 1), NthWeekdayOfMonth(year, 10, 4, 4), MakeDate(year, 11, 25), MakeDate(year, 5, 19))
  {
    MakeDateExisting(year, 0, 1);
    NthRule(year, 0, 1, 3);
    LastRule(year, 4, 1);
    MakeDateExisting(year, 6, 4);
    NthRule(year, 8, 1, 1);
    NthRule(year, 10, 4, 4);
    MakeDateExisting(year, 11, 25);
    MakeDateExisting(year, 5, 19);
  }

  /** `d1` to `d8` are the days of year `fy` that keep the rules of the
      eight holidays, in the order `computeHolidays` adds them. */
  ghost predicate HolidayDates(fy: int, d1: DayNumber, d2: DayNumber, d3: DayNumber, d4: DayNumber,
                               d5: DayNumber, d6: DayNumber, d7: DayNumber, d8: DayNumber) {
    && IsHoliday(NewYearsDay, fy, d1) && IsHoliday(MlkDay, fy, d2)
    && IsHoliday(MemorialDay, fy, d3) && IsHoliday(IndependenceDay, fy, d4)
    && IsHoliday(LaborDay, fy, d5) && IsHoliday(Thanksgiving, fy, d6)
    && IsHoliday(Christmas, fy, d7) && IsHoliday(Juneteenth, fy, d8)
  }

  /** `holidays` has the keys of `d1` to `d8` and no others, with the labels
      of the eight holidays in order. */
  ghost predicate HolidayEntries(holidays: map<string, string>, d1: DayNumber, d2: DayNumber, d3: DayNumber,
                                 d4: DayNumber, d5: DayNumber, d6: DayNumber, d7: DayNumber, d8: DayNumber) {
    && (forall key :: key in holidays <==>
          (key == IsoLocal(d1) || key == IsoLocal(d2) || key == IsoLocal(d3) || key == IsoLocal(d4)
           || key == IsoLocal(d5) || key == IsoLocal(d6) || key == IsoLocal(d7) || key == IsoLocal(d8)))
    && holidays[IsoLocal(d1)] == Label(NewYearsDay) && holidays[IsoLocal(d2)] == Label(MlkDay)
    && holidays[IsoLocal(d3)] == Label(MemorialDay) && holidays[IsoLocal(d4)] == Label(IndependenceDay)
    && holidays[IsoLocal(d5)] == Label(LaborDay) && holidays[IsoLocal(d6)] == Label(Thanksgiving)
    && holidays[IsoLocal(d7)] == Label(Christmas) && holidays[IsoLocal(d8)] == Label(Juneteenth)
  }

  /** The map of the eight holidays' dates `d1` to `d8` of year `fy`, set in
      the order of adding, has eight entries and says of every day whether
      it is a holiday of the year and which. */
  lemma HolidayMap(fy: int, holidays: map<string, string>, d1: DayNumber, d2: DayNumber, d3: DayNumber,
                   d4: DayNumber, d5: DayNumber, d6: DayNumber, d7: DayNumber, d8: DayNumber)
    requires HolidayDates(fy, d1, d2, d3, d4, d5, d6, d7, d8)
    requires holidays == map[][IsoLocal(d1) := Label(NewYearsDay)][IsoLocal(d2) := Label(MlkDay)]
      [IsoLocal(d3) := Label(MemorialDay)][IsoLocal(d4) := Label(IndependenceDay)]
      [IsoLocal(d5) := Label(LaborDay)][IsoLocal(d6) := Label(Thanksgiving)]
      [IsoLocal(d7) := Label(Christmas)][IsoLocal(d8) := Label(Juneteenth)]
    ensures |holidays| == 8
    ensures forall n :: IsoLocal(n) in holidays <==> exists h :: IsHoliday(h, fy, n)
    ensures forall h, n :: IsHoliday(h, fy, n) ==> holidays[IsoLocal(n)] == Label(h)
    ensures forall key :: key in holidays ==> exists n :: GetFullYear(n) == fy && key == IsoLocal(n)
  {
    HolidayChain(fy, holidays, d1, d2, d3, d4, d5, d6, d7, d8);
    HolidaysFound(fy, holidays, d1, d2, d3, d4, d5, d6, d7, d8);
    HolidaysOnly(fy, holidays, d1, d2, d3, d4, d5, d6, d7, d8);
  }

  /** Setting the eight holidays' keys one after the other gives a map of
      exactly those eight entries. */
  lemma HolidayChain(fy: int, holidays: map<string, string>, d1: DayNumber, d2: DayNumber, d3: DayNumber,
                     d4: DayNumber, d5: DayNumber, d6: DayNumber, d7: DayNumber, d8: DayNumber)
    requires HolidayDates(fy, d1, d2, d3, d4, d5, d6, d7, d8)
    requires holidays == map[][IsoLocal(d1) := Label(NewYearsDay)][IsoLocal(d2) := Label(MlkDay)]
      [IsoLocal(d3) := Label(MemorialDay)][IsoLocal(d4) := Label(IndependenceDay)]
      [IsoLocal(d5) := Label(LaborDay)][IsoLocal(d6) := Label(Thanksgiving)]
      [IsoLocal(d7) := Label(Christmas)][IsoLocal(d8) := Label(Juneteenth)]
    ensures |holidays| == 8
    ensures HolidayEntries(holidays, d1, d2, d3, d4, d5, d6, d7, d8)
  {
    HolidayKeysDistinct(fy, d1, d2, d3, d4, d5, d6, d7, d8);
    EightEntries(holidays, IsoLocal(d1), IsoLocal(d2), IsoLocal(d3), IsoLocal(d4),
      IsoLocal(d5), IsoLocal(d6), IsoLocal(d7), IsoLocal(d8),
      Label(NewYearsDay), Label(MlkDay), Label(MemorialDay), Label(IndependenceDay),
      Label(LaborDay), Label(Thanksgiving), Label(Christmas), Label(Juneteenth));
  }

  /** The keys of the eight holidays' dates differ: the dates differ in
      month or, in January, in day. */
  lemma HolidayKeysDistinct(fy: int, d1: DayNumber, d2: DayNumber, d3: DayNumber, d4: DayNumber,
                            d5: DayNumber, d6: DayNumber, d7: DayNumber, d8: DayNumber)
    requires HolidayDates(fy, d1, d2, d3, d4, d5, d6, d7, d8)
    ensures var k1, k2, k3, k4, k5, k6, k7, k8 := IsoLocal(d1), IsoLocal(d2), IsoLocal(d3), IsoLocal(d4),
                                                  IsoLocal(d5), IsoLocal(d6), IsoLocal(d7), IsoLocal(d8);
      && k1 != k2 && k1 != k3 && k1 != k4 && k1 != k5 && k1 != k6 && k1 != k7 && k1 != k8
      && k2 != k3 && k2 != k4 && k2 != k5 && k2 != k6 && k2 != k7 && k2 != k8
      && k3 != k4 && k3 != k5 && k3 != k6 && k3 != k7 && k3 != k8
      && k4 != k5 && k4 != k6 && k4 != k7 && k4 != k8
      && k5 != k6 && k5 != k7 && k5 != k8
      && k6 != k7 && k6 != k8
      && k7 != k8
  {
    KeyFieldsOfIsoLocal(d1); KeyFieldsOfIsoLocal(d2); KeyFieldsOfIsoLocal(d3); KeyFieldsOfIsoLocal(d4);
    KeyFieldsOfIsoLocal(d5); KeyFieldsOfIsoLocal(d6); KeyFieldsOfIsoLocal(d7); KeyFieldsOfIsoLocal(d8);
  }

  /** Every day that keeps a holiday's rule has its key in the map, under
      that holiday's label. */
  lemma HolidaysFound(fy: int, holidays: map<string, string>, d1: DayNumber, d2: DayNumber, d3: DayNumber,
                      d4: DayNumber, d5: DayNumber, d6: DayNumber, d7: DayNumber, d8: DayNumber)
    requires HolidayDates(fy, d1, d2, d3, d4, d5, d6, d7, d8)
    requires HolidayEntries(holidays, d1, d2, d3, d4, d5, d6, d7, d8)
    ensures forall h, n :: IsHoliday(h, fy, n) ==> IsoLocal(n) in holidays && holidays[IsoLocal(n)] == Label(h)
  {
    forall h, n | IsHoliday(h, fy, n) ensures IsoLocal(n) in holidays && holidays[IsoLocal(n)] == Label(h) {
      match h
      case NewYearsDay => RuleUnique(h, fy, n, d1);
      case MlkDay => RuleUnique(h, fy, n, d2);
      case MemorialDay => RuleUnique(h, fy, n, d3);
      case IndependenceDay => RuleUnique(h, fy, n, d4);
      case LaborDay => RuleUnique(h, fy, n, d5);
      case Thanksgiving => RuleUnique(h, fy, n, d6);
      case Christmas => RuleUnique(h, fy, n, d7);
      case Juneteenth => RuleUnique(h, fy, n, d8);
    }
  }

  /** Every key in the map is the key of a day of year `fy` that keeps a
      holiday's rule. */
  lemma HolidaysOnly(fy: int, holidays: map<string, string>, d1: DayNumber, d2: DayNumber, d3: DayNumber,
                     d4: DayNumber, d5: DayNumber, d6: DayNumber, d7: DayNumber, d8: DayNumber)
    requires HolidayDates(fy, d1, d2, d3, d4, d5, d6, d7, d8)
    requires HolidayEntries(holidays, d1, d2, d3, d4, d5, d6, d7, d8)
    ensures forall n :: IsoLocal(n) in holidays ==> exists h :: IsHoliday(h, fy, n)
    ensures forall key :: key in holidays ==> exists n :: GetFullYear(n) == fy && key == IsoLocal(n)
  {
    forall n | IsoLocal(n) in holidays ensures exists h :: IsHoliday(h, fy, n) {
      SameKey(n, d1); SameKey(n, d2); SameKey(n, d3); SameKey(n, d4);
      SameKey(n, d5); SameKey(n, d6); SameKey(n, d7); SameKey(n, d8);
    }
  }

  /** Equal keys are keys of one day. */
  lemma SameKey(a: DayNumber, b: DayNumber)
    ensures IsoLocal(a) == IsoLocal(b) ==> a == b
  {
    if IsoLocal(a) == IsoLocal(b) {
      IsoLocalInjective(a, b);
    }
  }

  /** A map made by setting eight distinct keys holds those eight entries
      and no others. */
  lemma EightEntries<K, V>(m: map<K, V>, k1: K, k2: K, k3: K, k4: K, k5: K, k6: K, k7: K, k8: K,
                           v1: V, v2: V, v3: V, v4: V, v5: V, v6: V, v7: V, v8: V)
    requires k1 != k2 && k1 != k3 && k1 != k4 && k1 != k5 && k1 != k6 && k1 != k7 && k1 != k8
    requires k2 != k3 && k2 != k4 && k2 != k5 && k2 != k6 && k2 != k7 && k2 != k8
    requires k3 != k4 && k3 != k5 && k3 != k6 && k3 != k7 && k3 != k8
    requires k4 != k5 && k4 != k6 && k4 != k7 && k4 != k8
    requires k5 != k6 && k5 != k7 && k5 != k8
    requires k6 != k7 && k6 != k8
    requires k7 != k8
    requires m == map[][k1 := v1][k2 := v2][k3 := v3][k4 := v4][k5 := v5][k6 := v6][k7 := v7][k8 := v8]
    ensures |m| == 8
    ensures forall key :: key in m <==>
      (key == k1 || key == k2 || key == k3 || key == k4 || key == k5 || key == k6 || key == k7 || key == k8)
    ensures m[k1] == v1 && m[k2] == v2 && m[k3] == v3 && m[k4] == v4
    ensures m[k5] == v5 && m[k6] == v6 && m[k7] == v7 && m[k8] == v8
  {
  }

  /** In 2024 the map files Martin Luther King Jr. Day under "2024-01-15"
      and Thanksgiving under "2024-11-28". */
  lemma Holidays2024(holidays: map<string, string>)
    requires forall h, n :: IsHoliday(h, 2024, n) ==> IsoLocal(n) in holidays && holidays[IsoLocal(n)] == Label(h)
    ensures "2024-01-15" in holidays && holidays["2024-01-15"] == "MLK Day"
    ensures "2024-11-28" in holidays && holidays["2024-11-28"] == "Thanksgiving"
  {
    MlkDay2024(holidays);
    Thanksgiving2024(holidays);
  }

  /** `computeHolidays(2024)` files Martin Luther King Jr. Day under
      "2024-01-15" and Thanksgiving under "2024-11-28". */
  method ComputeHolidays2024() returns (holidays: map<string, string>)
    ensures "2024-01-15" in holidays && holidays["2024-01-15"] == "MLK Day"
    ensures "2024-11-28" in holidays && holidays["2024-11-28"] == "Thanksgiving"
  {
    holidays := ComputeHolidays(2024);
    Holidays2024(holidays);
  }

  lemma MlkDay2024(holidays: map<string, string>)
    requires forall h, n :: IsHoliday(h, 2024, n) ==> IsoLocal(n) in holidays && holidays[IsoLocal(n)] == Label(h)
    ensures "2024-01-15" in holidays && holidays["2024-01-15"] == "MLK Day"
  {
    Weekdays2024();
    HolidayOn(holidays, MlkDay, DayFromCivil(2024, 0, 15), Civil(2024, 0, 15));
    MlkKey2024();
  }

  lemma Thanksgiving2024(holidays: map<string, string>)
    requires forall h, n :: IsHoliday(h, 2024, n) ==> IsoLocal(n) in holidays && holidays[IsoLocal(n)] == Label(h)
    ensures "2024-11-28" in holidays && holidays["2024-11-28"] == "Thanksgiving"
  {
    Weekdays2024();
    HolidayOn(holidays, Thanksgiving, DayFromCivil(2024, 10, 28), Civil(2024, 10, 28));
    ThanksgivingKey2024();
  }

  /** 2024-01-15 is a Monday and 2024-11-28 a Thursday. */
  lemma Weekdays2024()
    ensures Weekday(DayFromCivil(2024, 0, 15)) == 1 && Weekday(DayFromCivil(2024, 10, 28)) == 4
  {
    assert DayFromYear(2024) == 19723;
  }

  /** A day of `c.year` that keeps holiday `h`'s rule is in the map under
      the key of its date `c`. */
  lemma HolidayOn(holidays: map<string, string>, h: Holiday, n: DayNumber, c: Civil)
    requires forall h, n :: IsHoliday(h, c.year, n) ==> IsoLocal(n) in holidays && holidays[IsoLocal(n)] == Label(h)
    requires ValidCivil(c) && n == DayFromCivil(c.year, c.month, c.day)
    requires var (m, d, w) := (c.month, c.day, Weekday(n));
      match h
      case NewYearsDay => m == 0 && d == 1
      case MlkDay => m == 0 && w == 1 && 14 < d <= 21
      case MemorialDay => m == 4 && w == 1 && 24 < d
      case IndependenceDay => m == 6 && d == 4
      case LaborDay => m == 8 && w == 1 && d <= 7
      case Thanksgiving => m == 10 && w == 4 && 21 < d <= 28
      case Christmas => m == 11 && d == 25
      case Juneteenth => m == 5 && d == 19
    ensures var key := IsoKey(c.year, c.month + 1, c.day);
      key in holidays && holidays[key] == Label(h)
  {
    GettersOfCivil(n, c);
    assert IsHoliday(h, c.year, n);
  }

  lemma MlkKey2024()
    ensures IsoKey(2024, 1, 15) == "2024-01-15"
  {
    Year2024();
    Pad2Of(1);
    Pad2Of(15);
    KeySpelled(2024, 1, 15, "2024", "01", "15");
  }

  lemma ThanksgivingKey2024()
    ensures IsoKey(2024, 11, 28) == "2024-11-28"
  {
    Year2024();
    Pad2Of(11);
    Pad2Of(28);
    KeySpelled(2024, 11, 28, "2024", "11", "28");
  }

  lemma Year2024()
    ensures NumberToString(2024) == "2024"
  {
    assert NatToString(2) == "2";
    assert NatToString(20) == NatToString(2) + "0";
    assert NatToString(202) == NatToString(20) + "2";
    assert NatToString(2024) == NatToString(202) + "4";
  }

  lemma Pad2Of(k: nat)
    requires 1 <= k < 100
    ensures Pad2(k) == [DigitChar(k / 10), DigitChar(k % 10)]
  {
    if k < 10 {
      assert NatToString(k) == [DigitChar(k)];
      assert seq(1, _ => '0') == ['0'];
    } else {
      assert NatToString(k / 10) == [DigitChar(k / 10)];
    }
  }

  /** A key spelled out character by character from its three fields. */
  lemma KeySpelled(y: int, m: int, d: int, ys: string, ms: string, ds: string)
    requires 1 <= m <= 12 && 1 <= d <= 31
    requires NumberToString(y) == ys && Pad2(m) == ms && Pad2(d) == ds
    requires |ys| == 4 && |ms| == 2 && |ds| == 2
    ensures IsoKey(y, m, d) == [ys[0], ys[1], ys[2], ys[3], '-', ms[0], ms[1], '-', ds[0], ds[1]]
  {
    assert IsoKey(y, m, d) == ys + "-" + ms + "-" + ds;
    Concat(ys, ms, ds);
  }

  lemma Concat(y: string, mm: string, dd: string)
    requires |y| == 4 && |mm| == 2 && |dd| == 2
    ensures y + "-" + mm + "-" + dd == [y[0], y[1], y[2], y[3], '-', mm[0], mm[1], '-', dd[0], dd[1]]
  {
  }
}
