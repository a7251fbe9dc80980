# Payroll calendar date core, in Dafny

This project models the date arithmetic of the payroll calendar in `app.js`:
- the holiday calculator `computeHolidays`, with its helpers `nthWeekdayOfMonth` and `lastWeekdayOfMonth`;
- the payday calculator `computePaydaysInRange`;
- the date keys `isoLocal` and `parseDateInput`;
- the month-length idiom `new Date(year, monthIndex + 1, 0).getDate()`.

It then proves what these promise.

A JavaScript `Date` at local midnight is modelled as a day number, the days since 1970-01-01. On top of that:
- `Calendar` is the proleptic Gregorian calendar. It proves that day numbers and valid dates correspond one to one.
- `JsDate` holds the parts of `Date` the program uses:
  - the `(year, monthIndex, day)` constructor, with its month and day carrying and its reading of years 0–99 as 1900–1999;
  - `getFullYear`, `getMonth`, `getDate` and `getDay`;
  - `setDate`.
- `Text` holds `String(n)`, `padStart`, `split` on one character, and `Number` of a digit string.
- `DateKeys`, `Holidays` and `Paydays` model the program's own functions.
- `Wrappers` holds `Option`.

The three program modules follow the source's own form:
- `computeHolidays` fills a map one `add` at a time. It is a method that updates a map in the source's order.
- The weekly and biweekly schedules walk a cursor back and then forward with `setDate`. These are two methods, each with a `while` loop and its invariants.
- The methods are proved against the specification functions `Paydays`, `OnSequence` and `Keys`, and lemmas state what those functions mean.

## Model

| member | source | states |
|---|---|---|
| Holidays.JsRem | app.js:188 | JavaScript `%` with a positive divisor: dividend = divisor × truncated quotient + remainder, with the remainder of the dividend's sign and smaller than the divisor |
| Holidays.NthWeekdayOfMonth | app.js:185-190 | `nthWeekdayOfMonth`: the first of the month plus the truncated remainder to the first `weekday`, plus `nth - 1` weeks; its contract is carried by NthWeekdayOfMonthWeekday, NthWeekdayOfMonthInMonth and NthRule |
| Holidays.NthWeekdayOfMonthWeekday | app.js:185-190 | for every month, weekday and `nth`, the result falls on `weekday` mod 7 |
| Holidays.NthWeekdayOfMonthInMonth | app.js:185-190 | for weekday 0–6 and `nth` 1–4, the result lies in the given month (after carrying the month index into the year), with day of month in `((nth-1)*7, nth*7]` |
| Holidays.NthRule | app.js:185-190 | for month 0–11, it is the `nth` `weekday` of that month of year `FullYear(year)` |
| Holidays.LastWeekdayOfMonth | app.js:193-199 | `lastWeekdayOfMonth`: the month's last day less the truncated remainder back to `weekday`; its contract is carried by LastWeekdayOfMonthWeekday, LastWeekdayOfMonthInMonth, LastWeekdayOfMonthIsLast and LastRule |
| Holidays.LastWeekdayOfMonthWeekday | app.js:193-199 | for every month and weekday, the result falls on `weekday` mod 7 |
| Holidays.LastWeekdayOfMonthInMonth | app.js:193-199 | for weekday 0–6, the result lies in the month, within its last seven days |
| Holidays.LastWeekdayOfMonthIsLast | app.js:193-199 | no later day of the same month falls on that weekday |
| Holidays.LastRule | app.js:193-199 | for month 0–11, it is the last `weekday` of that month of year `FullYear(year)` |
| Holidays.RuleUnique | app.js:173-180 | each holiday's calendar rule picks at most one day of a year |
| Holidays.ComputeHolidays | app.js:168-182 | the map has exactly 8 keys; a day's key is present iff the day keeps some holiday's rule in that year, with that holiday's label; every key is the key of a day of that year |
| Holidays.HolidayMap | app.js:168-182 | the eight `add` calls on the eight rule-keeping dates give exactly that map: 8 distinct keys, found iff a rule holds, correct labels |
| Holidays.Holidays2024 | app.js:174-179 | in the 2024 map, "2024-01-15" is "MLK Day" and "2024-11-28" is "Thanksgiving" |
| Holidays.ComputeHolidays2024 | app.js:168-182 | `computeHolidays(2024)` holds "2024-01-15" as "MLK Day" and "2024-11-28" as "Thanksgiving" |
| Paydays.StepDays | app.js:210 | weekly steps by 7 days and biweekly by 14; monthly has no step |
| Paydays.Normalize | app.js:209 | the anchor rebuilt by the constructor from its getters; its contract is carried by NormalizeKeeps |
| Paydays.MonthlyPayday | app.js:212-218 | the monthly branch: the candidate with the anchor's day of month, kept only if it stays in the month; its contract is carried by MonthlyPaydays |
| Paydays.Paydays | app.js:201-232 | the paydays of the month as days, the specification of ComputePaydaysInRange; its meaning is carried by SteppedPaydays, MonthlyPaydays and PaydayCount |
| Paydays.NormalizeKeeps | app.js:209 | rebuilding the anchor from its getters keeps it, outside years 0–99 |
| Paydays.ComputePaydaysInRange | app.js:201-232 | no anchor gives the empty set; otherwise the result is exactly the keys of `Paydays(...)` |
| Paydays.WalkBack | app.js:222-225 | the loop ends; the cursor ends on or before the month's first day and on the anchor's sequence |
| Paydays.WalkForward | app.js:227-230 | the loop ends; the keys collected are exactly those of the days from the first to the last of the month on the anchor's sequence |
| Paydays.MonthWindow | app.js:204-205 | a day lies between `start` and `end` iff its getters read the target month; the window is as long as the month |
| Paydays.SteppedPaydays | app.js:201-232 | weekly/biweekly: a day is a payday iff it lies in the month and a whole number of steps from the normalised anchor (soundness and completeness) |
| Paydays.MonthlyPaydays | app.js:212-218 | monthly: at most one payday, the day of the target month with the anchor's day of month; none iff the month is too short for it, with no clamping and no roll-over |
| Paydays.PaydayCount | app.js:201-232 | weekly gives 4–5 paydays and biweekly 2–3, with as many distinct keys as days |
| Paydays.KeysCount | app.js:228 | different days have different keys, so a set of days keeps its size as a set of keys |
| Paydays.WeeklyJanuary2024 | app.js:201-232 | weekly from 2024-01-05, January 2024's paydays are the 5th, 12th, 19th and 26th |
| Paydays.BiweeklyFebruary2024 | app.js:201-232 | biweekly from 2024-01-05, February 2024's paydays are the 2nd and the 16th |
| Paydays.MonthlyFebruary2024 | app.js:212-218 | monthly from 2024-01-31, February 2024 has no payday |
| DateKeys.IsoLocal | app.js:234-236 | `isoLocal`: the year's `String`, the month (1–12) and the day padded to two digits, joined by dashes; its contract is carried by IsoLocalFormat, KeyFieldsOfIsoLocal, IsoLocalInjective and ParseIsoLocal |
| DateKeys.IsoLocalFormat | app.js:234-236 | for a four-digit year, the key has ten characters with dashes at 4 and 7, and digit fields worth the year, month (1–12) and day |
| DateKeys.KeyFieldsOfIsoLocal | app.js:234-236 | reading a day's key from its end gives its year, month (1–12) and day of month |
| DateKeys.IsoLocalInjective | app.js:234-236 | different days have different keys |
| DateKeys.ParseDateInput | app.js:238-244 | the result is `null` iff the input does not hold exactly two dashes, i.e. does not split into exactly three parts |
| DateKeys.ParseIsoLocal | app.js:234-244 | parsing a day's key gives the day back, for every year from 100 on |
| DateKeys.ParseIsoLocalNegativeYear | app.js:234-244 | the key of a day of a negative year parses as `null` |
| DateKeys.IsoKeyShape | app.js:235 | a key is the year's `String`, a dash, two month digits and a dash followed by two day digits |
| JsDate.MakeDate | app.js:204-205 | `new Date(y, m, d)`: years 0–99 read as 1900–1999, the month index carried into the year, the day counted from the month's first; its contract is carried by MakeDateExisting, MakeDateRollsOver and LastDayInMonth |
| JsDate.SetDate | app.js:224 | `setDate`: the day counted from the first of the date's month, without the two-digit-year reading; its contract is carried by SetDateShift |
| JsDate.DaysInMonthOfDate | app.js:97 | the idiom gives the length of month `monthIndex` (after carrying into the year), between 28 and 31 |
| JsDate.SetDateShift | app.js:224 | `d.setDate(d.getDate() + k)` moves `d` by exactly `k` days across month and year ends |
| JsDate.MakeDateRollsOver | app.js:215-216 | a day of the month past the month's end rolls into the next month |
| JsDate.LastDayInMonth | app.js:205 | `new Date(y, m + 1, 0)` is the last day of month `m`: its getters read that month and its length |
| Text.TwoDigits | app.js:235 | `String(k).padStart(2, '0')` for 1–31 is two digits worth `k` |
| Text.NumberToStringRoundTrip | app.js:235 | reading back what `String(x)` writes for an integer gives `x` |
| Text.SplitJoin | app.js:240 | splitting dash-joined dash-free pieces gives back the pieces |
| Text.SplitCount | app.js:240-241 | `split` gives one more piece than there are separators |

## Left out

- The DOM, rendering, UI state, money formatting and totals, and locale are outside the date core.
- Time zones, daylight saving and times of day are not modelled: a `Date` is a local calendar day.
- `Date`'s range limit of ±10^8 days is not modelled, and neither is the invalid date it produces beyond that. Day numbers are unbounded.
- Frequencies other than weekly, biweekly and monthly are not modelled. In the source such a frequency gives `stepDays` the value `null`, and `d.getDate() - null` steps by 0: the backward loop never ends when the anchor lies after the month's first day, and otherwise the forward loop never ends, so the source does not return for any anchor.
- ParseDateInput: a field that is not all ASCII digits (an empty field reads as 0) gives `NonDecimalField`. The model does not follow JavaScript's `Number` syntax (signs, spaces, exponents) or the `NaN` dates it makes.
- JsRem: modelled for positive divisors only; the source divides only by 7.
- Normalize: for anchors in years 0–99 the constructor reads the year as 1900–1999. The model keeps this, and NormalizeKeeps states the identity only outside those years.
- ParseIsoLocal: does not cover years 0–99, because the constructor reads those years as 1900–1999. It does not cover negative years either, whose key parses as `null` (ParseIsoLocalNegativeYear).
- MonthlyPaydays: for a month index outside 0–11, `getMonth()` never equals it, so the monthly schedule finds no payday. The weekly schedule still carries the index into the year.
- Paydays.ComputePaydaysInRange: the one source loop body is split into the two methods WalkBack and WalkForward, one per `while` loop. `d > start` compares the day numbers, which is the same as comparing midnight times.
- Holidays.ComputeHolidays: the labels are the strings of `Label(h)`, which spell out the source's labels.
- WeeklyJanuary2024, BiweeklyFebruary2024, MonthlyFebruary2024: the anchor is any day whose getters read the stated date, and the paydays are stated as days, not as key strings.
