/** The payday calculator: the paydays that fall inside one calendar month,
    for a pay schedule given by its frequency and the date of one payment
    (the anchor). */
module Paydays {
  import opened Wrappers
  import opened Calendar
  import opened JsDate
  import opened DateKeys

  datatype Frequency = Weekly | Biweekly | Monthly

  /** `stepDays`: the days between paydays; the monthly schedule has none. */
  function StepDays(freq: Frequency): (r: Option<int>)
    ensures r.Some? <==> freq != Monthly
    ensures freq == Weekly ==> r == Some(7)
    ensures freq == Biweekly ==> r == Some(14)
  {
    match freq
    case Weekly => Some(7)
    case Biweekly => Some(14)
    case Monthly => None
  }

  /** The anchor rebuilt from its year, month and day by the constructor,
      which drops any time of day. */
  function Normalize(p: DayNumber): DayNumber {
    MakeDate(GetFullYear(p), GetMonth(p), GetDate(p))
  }

  /** Rebuilding a date leaves it as it is, unless its year is one the
      constructor reads as a two-digit year. */
  lemma NormalizeKeeps(p: DayNumber)
    requires !(0 <= GetFullYear(p) <= 99)
    ensures Normalize(p) == p
  {
    MakeDateExisting(GetFullYear(p), GetMonth(p), GetDate(p));
    GettersOfDay(p);
  }

  /** The paydays of the monthly schedule in month `monthIndex` of `year`:
      the date with the anchor's day of the month, if the month has it. */
  function MonthlyPayday(year: int, monthIndex: int, dayOfMonth: int): set<DayNumber> {
    var candidate := MakeDate(year, monthIndex, dayOfMonth);
    if GetMonth(candidate) == monthIndex then {candidate} else {}
  }

  /** Day `n` lies a whole number of steps before or after `anchor`. */
  predicate OnStep(n: DayNumber, anchor: DayNumber, step: int)
    requires step > 0
  {
    (n - anchor) % step == 0
  }

  /** The days from `lo` to `hi`, both included, that lie a whole number of
      steps before or after `anchor`. */
  function OnSequence(lo: DayNumber, hi: DayNumber, anchor: DayNumber, step: int): set<DayNumber>
    requires step > 0
  {
    set n | lo <= n <= hi && OnStep(n, anchor, step)
  }

  /** The paydays in month `monthIndex` of `year`, as days. */
  function Paydays(year: int, monthIndex: int, freq: Frequency, lastPaymentDate: Option<DayNumber>): set<DayNumber> {
    match lastPaymentDate
    case None => {}
    case Some(p) =>
      var anchor := Normalize(p);
      match StepDays(freq)
      case None => MonthlyPayday(year, monthIndex, GetDate(anchor))
      case Some(step) => OnSequence(MakeDate(year, monthIndex, 1), MakeDate(year, monthIndex + 1, 0), anchor, step)
  }

  /** The keys of a set of days. */
  function Keys(days: set<DayNumber>): set<string> {
    set n | n in days :: IsoLocal(n)
  }

  /** `computePaydaysInRange(year, monthIndex, freq, lastPaymentDate)`: the
      keys of the paydays in the month. The weekly and biweekly schedules
      walk a cursor back from the anchor to the month's first day or before,
      then forward through the month, collecting the days inside it. */
  method ComputePaydaysInRange(year: int, monthIndex: int, freq: Frequency, lastPaymentDate: Option<DayNumber>)
    returns (paydays: set<string>)
    ensures lastPaymentDate.None? ==> paydays == {}
    ensures paydays == Keys(Paydays(year, monthIndex, freq, lastPaymentDate))
  {
    paydays := {};
    if lastPaymentDate.None? {
      return;
    }
    var start := MakeDate(year, monthIndex, 1);
    var end := MakeDate(year, monthIndex + 1, 0);
    var p := lastPaymentDate.value;
    var anchor := MakeDate(GetFullYear(p), GetMonth(p), GetDate(p));
    var stepDays := StepDays(freq);

    if freq == Monthly {
      var dayOfMonth := GetDate(anchor);
      var candidate := MakeDate(year, monthIndex, dayOfMonth);
      if GetMonth(candidate) == monthIndex {
        paydays := paydays + {IsoLocal(candidate)};
      }
      return;
    }

    var step := stepDays.value;
    var d := WalkBack(anchor, start, step);
    LastDayInMonth(year, monthIndex);
    paydays := WalkForward(d, start, end, anchor, step);
  }

  /** The backward walk: from the anchor, step back until on or before
      `start`. */
  method WalkBack(anchor: DayNumber, start: DayNumber, step: int) returns (d: DayNumber)
    requires step > 0
    ensures d <= start && d <= anchor && OnStep(d, anchor, step)
  {
    d := anchor;
    while d > start
      invariant d <= anchor && OnStep(d, anchor, step)
      decreases d - start
    {
      SetDateShift(d, -step);
      StepAlong(d, anchor, step, -step);
      d := SetDate(d, GetDate(d) - step);
    }
  }

  /** The forward walk: from a cursor on the sequence, on or before `start`,
      step forward past `end`, collecting the keys of the days from `start`
      to `end` on the way. */
  method WalkForward(d0: DayNumber, start: DayNumber, end: DayNumber, anchor: DayNumber, step: int)
    returns (paydays: set<string>)
    requires step > 0 && d0 <= start <= end && OnStep(d0, anchor, step)
    ensures paydays == Keys(OnSequence(start, end, anchor, step))
  {
    paydays := {};
    var d := d0;
    SequenceBefore(start, d, anchor, step);
    while d <= end
      invariant d <= end + step
      invariant OnStep(d, anchor, step)
      invariant paydays == Keys(OnSequence(start, d - 1, anchor, step))
      decreases end - d
    {
      SequenceStep(start, d, anchor, step);
      if d >= start && d <= end {
        KeysAdd(OnSequence(start, d - 1, anchor, step), d);
        paydays := paydays + {IsoLocal(d)};
      }
      SetDateShift(d, step);
      StepAlong(d, anchor, step, step);
      d := SetDate(d, GetDate(d) + step);
    }
    SequenceEnd(start, end, d, anchor, step);
  }

  /** Nothing on the window's sequence comes before its first day. */
  lemma SequenceBefore(lo: DayNumber, d: DayNumber, anchor: DayNumber, step: int)
    requires step > 0 && d <= lo
    ensures OnSequence(lo, d - 1, anchor, step) == {}
  {
  }

  /** Moving the cursor one step adds the cursor's day, if it is in the
      window. */
  lemma SequenceStep(lo: DayNumber, d: DayNumber, anchor: DayNumber, step: int)
    requires step > 0 && OnStep(d, anchor, step)
    ensures OnSequence(lo, d + step - 1, anchor, step)
         == OnSequence(lo, d - 1, anchor, step) + (if lo <= d then {d} else {})
  {
    forall n | lo <= n < d + step && OnStep(n, anchor, step) && n >= d
      ensures n == d
    {
      Congruent(n, d, anchor, step);
    }
  }

  /** Once the cursor is past the window's end by less than a step, the
      days collected are those of the whole window. */
  lemma SequenceEnd(lo: DayNumber, hi: DayNumber, d: DayNumber, anchor: DayNumber, step: int)
    requires step > 0 && OnStep(d, anchor, step) && hi < d <= hi + step
    ensures OnSequence(lo, d - 1, anchor, step) == OnSequence(lo, hi, anchor, step)
  {
    forall n | lo <= n < d && OnStep(n, anchor, step)
      ensures n <= hi
    {
      if n > hi {
        Congruent(n, d, anchor, step);
      }
    }
  }

  /** Two days on one sequence less than a step apart are the same day. */
  lemma Congruent(n: int, d: int, anchor: int, step: int)
    requires step > 0 && (n - anchor) % step == 0 && (d - anchor) % step == 0
    requires d - step < n < d + step
    ensures n == d
  {
    var i, j := (n - anchor) / step, (d - anchor) / step;
    assert n - anchor == step * i;
    assert d - anchor == step * j;
    if i != j {
      Multiples(step, i, j);
    }
  }

  /** A step forward or back from a day on the sequence stays on it. */
  lemma StepAlong(d: int, anchor: int, step: int, delta: int)
    requires step > 0 && OnStep(d, anchor, step) && (delta == step || delta == -step)
    ensures OnStep(d + delta, anchor, step)
  {
    var q := (d - anchor) / step;
    if delta == step {
      assert d + delta - anchor == step * (q + 1);
      MultipleMod(step, q + 1);
    } else {
      assert d + delta - anchor == step * (q - 1);
      MultipleMod(step, q - 1);
    }
  }

  /** A multiple of `step` leaves no remainder. */
  lemma MultipleMod(step: int, m: int)
    requires step > 0
    ensures (step * m) % step == 0
  {
    var q, r := (step * m) / step, (step * m) % step;
    assert step * m == step * q + r && 0 <= r < step;
    if q != m {
      Multiples(step, m, q);
    }
  }

  /** Different multiples of `step` lie at least a step apart. */
  lemma Multiples(step: int, i: int, j: int)
    requires step > 0 && i != j
    ensures step * i - step * j >= step || step * j - step * i >= step
  {
    if i > j {
      assert step * i - step * j == step * (i - j);
      AtLeastOnce(step, i - j);
    } else {
      assert step * j - step * i == step * (j - i);
      AtLeastOnce(step, j - i);
    }
  }

  lemma {:induction false} AtLeastOnce(step: int, k: int)
    requires step > 0 && k >= 1
    ensures step * k >= step
    decreases k
  {
    if k > 1 {
      AtLeastOnce(step, k - 1);
      assert step * k == step * (k - 1) + step;
    }
  }

  lemma KeysAdd(days: set<DayNumber>, d: DayNumber)
    ensures Keys(days + {d}) == Keys(days) + {IsoLocal(d)}
  {
  }

  /** The first and last day of the window are the first and last day of
      the month `new Date(year, monthIndex, 1)` falls in, and the window
      holds exactly the days of that month. */
  lemma MonthWindow(year: int, monthIndex: int, n: DayNumber)
    ensures var start, end := MakeDate(year, monthIndex, 1), MakeDate(year, monthIndex + 1, 0);
      (start <= n <= end
       <==> GetFullYear(n) == FullYear(year) + monthIndex / 12 && GetMonth(n) == monthIndex % 12)
      && end - start + 1 == DaysInMonth(FullYear(year) + monthIndex / 12, monthIndex % 12)
  {
    var yy, mm := FullYear(year) + monthIndex / 12, monthIndex % 12;
    LastDayInMonth(year, monthIndex);
    assert MakeDate(year, monthIndex, 1) == DayFromCivil(yy, mm, 1);
    DaysOfMonth(yy, mm, n);
  }

  /** The days from the first to the last of a month are the days whose
      getters read that month. */
  lemma DaysOfMonth(yy: int, mm: int, n: DayNumber)
    requires 0 <= mm < 12
    ensures DayFromCivil(yy, mm, 1) <= n <= DayFromCivil(yy, mm, DaysInMonth(yy, mm))
        <==> GetFullYear(n) == yy && GetMonth(n) == mm
  {
    var start := DayFromCivil(yy, mm, 1);
    if start <= n <= DayFromCivil(yy, mm, DaysInMonth(yy, mm)) {
      GettersOfCivil(n, Civil(yy, mm, n - start + 1));
    }
    GettersOfDay(n);
  }

  /** A weekly or biweekly payday is a day of the month whose distance from
      the anchor is a whole number of steps, and every such day is a
      payday. */
  lemma SteppedPaydays(year: int, monthIndex: int, freq: Frequency, p: DayNumber, n: DayNumber)
    requires freq != Monthly
    ensures n in Paydays(year, monthIndex, freq, Some(p))
        <==> && GetFullYear(n) == FullYear(year) + monthIndex / 12
             && GetMonth(n) == monthIndex % 12
             && OnStep(n, Normalize(p), if freq == Weekly then 7 else 14)
  {
    MonthWindow(year, monthIndex, n);
  }

  /** The monthly payday is the day of the target month with the anchor's
      day of the month; a month too short for it has none, rather than
      its last day or a day of the next month. */
  lemma MonthlyPaydays(year: int, monthIndex: int, p: DayNumber, n: DayNumber)
    ensures var days := Paydays(year, monthIndex, Monthly, Some(p));
      && |days| <= 1
      && (n in days <==> && 0 <= monthIndex < 12
                         && GetFullYear(n) == FullYear(year)
                         && GetMonth(n) == monthIndex
                         && GetDate(n) == GetDate(Normalize(p)))
      && (0 <= monthIndex < 12 ==>
            (days == {} <==> GetDate(Normalize(p)) > DaysInMonth(FullYear(year), monthIndex)))
  {
    var dom := GetDate(Normalize(p));
    var candidate := MakeDate(year, monthIndex, dom);
    if 0 <= monthIndex < 12 {
      if dom <= DaysInMonth(FullYear(year), monthIndex) {
        MakeDateExisting(year, monthIndex, dom);
        if GetFullYear(n) == FullYear(year) && GetMonth(n) == monthIndex && GetDate(n) == dom {
          GettersOfDay(n);
        }
      } else {
        MakeDateRollsOver(year, monthIndex, dom);
      }
    }
  }

  /** A weekly schedule has four or five paydays in every month, a biweekly
      one two or three, and so many keys. */
  lemma PaydayCount(year: int, monthIndex: int, freq: Frequency, p: DayNumber)
    requires freq != Monthly
    ensures var days := Paydays(year, monthIndex, freq, Some(p));
      && |Keys(days)| == |days|
      && (freq == Weekly ==> 4 <= |days| <= 5)
      && (freq == Biweekly ==> 2 <= |days| <= 3)
  {
    MonthWindow(year, monthIndex, 0);
    var start, end := MakeDate(year, monthIndex, 1), MakeDate(year, monthIndex + 1, 0);
    SequenceCount(start, end, Normalize(p), StepDays(freq).value);
    KeysCount(Paydays(year, monthIndex, freq, Some(p)), start, end);
  }

  /** A window of 28 to 31 days holds four or five days of a weekly
      sequence and two or three of a biweekly one. */
  lemma SequenceCount(lo: DayNumber, hi: DayNumber, anchor: DayNumber, step: int)
    requires (step == 7 || step == 14) && lo + 27 <= hi <= lo + 30
    ensures step == 7 ==> 4 <= |OnSequence(lo, hi, anchor, step)| <= 5
    ensures step == 14 ==> 2 <= |OnSequence(lo, hi, anchor, step)| <= 3
  {
    var f := FirstOnStep(lo, anchor, step);
    var c1, c2, c3, c4 := f + step, f + 2 * step, f + 3 * step, f + 4 * step;
    StepAlong(f, anchor, step, step);
    StepAlong(c1, anchor, step, step);
    StepAlong(c2, anchor, step, step);
    StepAlong(c3, anchor, step, step);
    var days := OnSequence(lo, hi, anchor, step);
    forall n | n in days
      ensures n == f || n == c1 || n == c2 || n == c3 || n == c4
    {
      if n < c1 {
        Congruent(n, f, anchor, step);
      } else if n < c2 {
        Congruent(n, c1, anchor, step);
      } else if n < c3 {
        Congruent(n, c2, anchor, step);
      } else if n < c4 {
        Congruent(n, c3, anchor, step);
      } else {
        Congruent(n, c4, anchor, step);
      }
    }
    if step == 7 {
      assert {f, c1, c2, c3} <= days <= {f, c1, c2, c3, c4};
      Cardinality4(f, c1, c2, c3, c4, days);
    } else {
      assert {f, c1} <= days <= {f, c1, c2};
      Cardinality2(f, c1, c2, days);
    }
  }

  lemma Cardinality4(a: int, b: int, c: int, d: int, e: int, s: set<int>)
    requires a < b < c < d < e && {a, b, c, d} <= s <= {a, b, c, d, e}
    ensures 4 <= |s| <= 5
  {
    assert s == {a, b, c, d} + (if e in s then {e} else {});
  }

  lemma Cardinality2(a: int, b: int, c: int, s: set<int>)
    requires a < b < c && {a, b} <= s <= {a, b, c}
    ensures 2 <= |s| <= 3
  {
    assert s == {a, b} + (if c in s then {c} else {});
  }

  /** The first day on the sequence from `lo` on. */
  lemma FirstOnStep(lo: DayNumber, anchor: DayNumber, step: int) returns (f: DayNumber)
    requires step > 0
    ensures lo <= f < lo + step && OnStep(f, anchor, step)
  {
    var q := (anchor - lo) / step;
    f := lo + (anchor - lo) % step;
    assert f - anchor == step * -q;
    MultipleMod(step, -q);
  }

  /** Different days have different keys, so a set of days within a window
      has as many keys as days. */
  lemma KeysCount(days: set<DayNumber>, lo: DayNumber, hi: DayNumber)
    requires lo <= hi && forall n :: n in days ==> lo <= n <= hi
    ensures |Keys(days)| == |days|
  {
    KeysCountBelow(days, lo, hi + 1);
    assert Below(days, hi + 1) == days;
  }

  /** The days of the set before day `b`. */
  function Below(days: set<DayNumber>, b: DayNumber): set<DayNumber> {
    set n | n in days && n < b
  }

  lemma {:induction false} KeysCountBelow(days: set<DayNumber>, lo: DayNumber, b: DayNumber)
    requires lo <= b && forall n :: n in days ==> lo <= n
    ensures |Keys(Below(days, b))| == |Below(days, b)|
    decreases b - lo
  {
    if b == lo {
      assert Below(days, b) == {};
    } else {
      KeysCountBelow(days, lo, b - 1);
      BelowStep(days, b);
      if b - 1 in days {
        KeysAddNew(Below(days, b - 1), b - 1);
      }
    }
  }

  lemma BelowStep(days: set<DayNumber>, b: DayNumber)
    ensures b - 1 in days ==> Below(days, b) == Below(days, b - 1) + {b - 1}
    ensures b - 1 in days ==> b - 1 !in Below(days, b - 1)
    ensures b - 1 !in days ==> Below(days, b) == Below(days, b - 1)
  {
  }

  /** A day not yet in the set adds a key not yet among its keys. */
  lemma KeysAddNew(rest: set<DayNumber>, x: DayNumber)
    requires x !in rest
    ensures |Keys(rest + {x})| == |Keys(rest)| + 1
  {
    KeysAdd(rest, x);
    forall y | y in rest
      ensures IsoLocal(y) != IsoLocal(x)
    {
      if IsoLocal(y) == IsoLocal(x) {
        IsoLocalInjective(x, y);
      }
    }
    assert IsoLocal(x) !in Keys(rest);
  }

  /** Weekly from Friday 2024-01-05: the paydays of January 2024 are the
      5th, 12th, 19th and 26th. */
  lemma WeeklyJanuary2024(jan5: DayNumber)
    requires GetFullYear(jan5) == 2024 && GetMonth(jan5) == 0 && GetDate(jan5) == 5
    ensures Paydays(2024, 0, Weekly, Some(jan5)) == {jan5, jan5 + 7, jan5 + 14, jan5 + 21}
  {
    Windows2024();
    January2024(jan5);
    NormalizeKeeps(jan5);
    SteppedWindow(2024, 0, Weekly, jan5, jan5 - 4, jan5 + 26, jan5);
    WeeklyFromFifth(jan5);
  }

  /** On the weekly sequence through day `a`, the days from four before `a`
      to 26 after are `a` and the three weeks after it. */
  lemma WeeklyFromFifth(a: DayNumber)
    ensures OnSequence(a - 4, a + 26, a, 7) == {a, a + 7, a + 14, a + 21}
  {
    StepAlong(a, a, 7, 7);
    StepAlong(a + 7, a, 7, 7);
    StepAlong(a + 14, a, 7, 7);
    StepAlong(a + 21, a, 7, 7);
    SequenceOfFirst(a - 4, a + 26, a, 7, a);
    SequenceOfFirst(a + 7, a + 26, a, 7, a + 7);
    SequenceOfFirst(a + 14, a + 26, a, 7, a + 14);
    SequenceOfFirst(a + 21, a + 26, a, 7, a + 21);
    assert OnSequence(a + 28, a + 26, a, 7) == {};
  }

  /** Biweekly from 2024-01-05: the paydays of February 2024 are the 2nd
      and the 16th, four and six weeks after the anchor. */
  lemma BiweeklyFebruary2024(jan5: DayNumber)
    requires GetFullYear(jan5) == 2024 && GetMonth(jan5) == 0 && GetDate(jan5) == 5
    ensures Paydays(2024, 1, Biweekly, Some(jan5)) == {jan5 + 28, jan5 + 42}
  {
    Windows2024();
    January2024(jan5);
    NormalizeKeeps(jan5);
    SteppedWindow(2024, 1, Biweekly, jan5, jan5 + 27, jan5 + 55, jan5);
    BiweeklyFromFifth(jan5);
  }

  /** On the biweekly sequence through day `a`, the days from 27 to 55
      after `a` are four and six weeks after it. */
  lemma BiweeklyFromFifth(a: DayNumber)
    ensures OnSequence(a + 27, a + 55, a, 14) == {a + 28, a + 42}
  {
    StepAlong(a, a, 14, 14);
    StepAlong(a + 14, a, 14, 14);
    StepAlong(a + 28, a, 14, 14);
    SequenceOfFirst(a + 27, a + 55, a, 14, a + 28);
    SequenceOfFirst(a + 42, a + 55, a, 14, a + 42);
    assert OnSequence(a + 56, a + 55, a, 14) == {};
  }

  /** The windows of January and February 2024. */
  lemma Windows2024()
    ensures MakeDate(2024, 0, 1) == 19723 && MakeDate(2024, 1, 0) == 19753
    ensures MakeDate(2024, 1, 1) == 19754 && MakeDate(2024, 2, 0) == 19782
  {
  }

  /** The day number of a day of January 2024. */
  lemma January2024(n: DayNumber)
    requires GetFullYear(n) == 2024 && GetMonth(n) == 0
    ensures n == 19722 + GetDate(n)
  {
    GettersOfDay(n);
  }

  /** The weekly or biweekly paydays are the days of the window on the
      anchor's sequence. */
  lemma SteppedWindow(year: int, monthIndex: int, freq: Frequency, p: DayNumber, lo: DayNumber, hi: DayNumber, a: DayNumber)
    requires freq != Monthly
    requires MakeDate(year, monthIndex, 1) == lo && MakeDate(year, monthIndex + 1, 0) == hi && Normalize(p) == a
    ensures Paydays(year, monthIndex, freq, Some(p)) == OnSequence(lo, hi, a, StepDays(freq).value)
  {
  }

  /** The days of a window on a sequence: its first such day, then those
      from a step later on. */
  lemma SequenceOfFirst(lo: DayNumber, hi: DayNumber, anchor: DayNumber, step: int, f: DayNumber)
    requires step > 0 && lo <= f < lo + step && f <= hi && OnStep(f, anchor, step)
    ensures OnSequence(lo, hi, anchor, step) == {f} + OnSequence(f + step, hi, anchor, step)
  {
    forall n | n in OnSequence(lo, hi, anchor, step) && n < f + step
      ensures n == f
    {
      Congruent(n, f, anchor, step);
    }
  }

  /** Monthly from 2024-01-31: February 2024 has no 31st, so no payday. */
  lemma MonthlyFebruary2024(jan31: DayNumber)
    requires GetFullYear(jan31) == 2024 && GetMonth(jan31) == 0 && GetDate(jan31) == 31
    ensures Paydays(2024, 1, Monthly, Some(jan31)) == {}
  {
    NormalizeKeeps(jan31);
    MonthlyPaydays(2024, 1, jan31, 0);
  }

}
