/** The "YYYY-MM-DD" keys under which holidays and paydays are stored, and
    the reading of a "YYYY-MM-DD" date input back into a date. */
module DateKeys {
  import opened Calendar
  import opened JsDate
  import opened Text

  /** `String(k).padStart(2, '0')` */
  function Pad2(k: nat): string {
    PadStart(NatToString(k), 2, '0')
  }

  /** The key of year `y`, month `m` (1 to 12) and day `d`. */
  function IsoKey(y: int, m: int, d: int): string
    requires 1 <= m <= 12 && 1 <= d <= 31
  {
    NumberToString(y) + "-" + Pad2(m) + "-" + Pad2(d)
  }

  /** A key is the year as `String` writes it, a dash, the month in two
      digits, a dash and the day in two digits; ten characters for a year of
      four digits. */
  lemma IsoKeyShape(y: int, m: int, d: int)
    requires 1 <= m <= 12 && 1 <= d <= 31
    ensures var key := IsoKey(y, m, d);
      && |key| == |NumberToString(y)| + 6
      && key[..|key| - 6] == NumberToString(y)
      && key[|key| - 6] == '-' && key[|key| - 3] == '-'
      && |key[|key| - 5..|key| - 3]| == 2 && IsDecimal(key[|key| - 5..|key| - 3])
      && DecimalValue(key[|key| - 5..|key| - 3]) == m
      && |key[|key| - 2..]| == 2 && IsDecimal(key[|key| - 2..])
      && DecimalValue(key[|key| - 2..]) == d
      && (1000 <= y <= 9999 ==> |key| == 10 && IsDecimal(key[..4]))
  {
    TwoDigits(m);
    TwoDigits(d);
    DecimalLength(if y >= 0 then y else 0);
    KeyParts(NumberToString(y), Pad2(m), Pad2(d));
  }

  lemma KeyParts(y: string, mm: string, dd: string)
    requires |mm| == 2 && |dd| == 2
    ensures var key := y + "-" + mm + "-" + dd;
      && |key| == |y| + 6
      && key[..|key| - 6] == y
      && key[|key| - 6] == '-' && key[|key| - 3] == '-'
      && key[|key| - 5..|key| - 3] == mm
      && key[|key| - 2..] == dd
  {
  }

  /** Reads the year, month and day back out of a key, from its end: the
      last two characters are the day, the two before the dash before them
      the month, and all before the third-to-last dash the year. */
  function KeyFields(key: string): (int, int, int) {
    if |key| < 6 then (0, 0, 0)
    else (ReadSigned(key[..|key| - 6]), ReadDecimal(key[|key| - 5..|key| - 3]), ReadDecimal(key[|key| - 2..]))
  }

  function ReadDecimal(s: string): int {
    if IsDecimal(s) then DecimalValue(s) else 0
  }

  function ReadSigned(s: string): int {
    if |s| >= 1 && (if s[0] == '-' then IsDecimal(s[1..]) else IsDecimal(s)) then SignedDecimalValue(s) else 0
  }

  /** Reading a key gives back the date it was written from. */
  lemma KeyFieldsOfIsoKey(y: int, m: int, d: int)
    requires 1 <= m <= 12 && 1 <= d <= 31
    ensures KeyFields(IsoKey(y, m, d)) == (y, m, d)
  {
    IsoKeyShape(y, m, d);
    NumberToStringRoundTrip(y);
  }

  /** `isoLocal(d)`: the year as written by `String`, a dash, the month
      (1 to 12) in two digits, a dash, the day of the month in two digits. */
  function IsoLocal(n: DayNumber): string {
    IsoKey(GetFullYear(n), GetMonth(n) + 1, GetDate(n))
  }

  /** The key of a day of a four-digit year is "YYYY-MM-DD": ten characters,
      dashes at positions 4 and 7, and digits elsewhere whose values are the
      year, the month (1 to 12) and the day of the month. */
  lemma IsoLocalFormat(n: DayNumber)
    requires 1000 <= GetFullYear(n) <= 9999
    ensures var key := IsoLocal(n);
      && |key| == 10 && key[4] == '-' && key[7] == '-'
      && IsDecimal(key[..4]) && IsDecimal(key[5..7]) && IsDecimal(key[8..])
      && DecimalValue(key[..4]) == GetFullYear(n)
      && DecimalValue(key[5..7]) == GetMonth(n) + 1
      && DecimalValue(key[8..]) == GetDate(n)
  {
    FourDigitKey(GetFullYear(n), GetMonth(n) + 1, GetDate(n));
  }

  /** The key of a date of a four-digit year, field by field. */
  lemma FourDigitKey(y: int, m: int, d: int)
    requires 1000 <= y <= 9999 && 1 <= m <= 12 && 1 <= d <= 31
    ensures var key := IsoKey(y, m, d);
      && |key| == 10 && key[4] == '-' && key[7] == '-'
      && IsDecimal(key[..4]) && IsDecimal(key[5..7]) && IsDecimal(key[8..])
      && DecimalValue(key[..4]) == y && DecimalValue(key[5..7]) == m && DecimalValue(key[8..]) == d
  {
    IsoKeyShape(y, m, d);
    DecimalRoundTrip(y);
    var key := IsoKey(y, m, d);
    assert key[..4] == NumberToString(y);
    assert key[5..7] == key[|key| - 5..|key| - 3];
    assert key[8..] == key[|key| - 2..];
  }

  /** Reading the key of a day gives its year, month (1 to 12) and day. */
  lemma KeyFieldsOfIsoLocal(n: DayNumber)
    ensures KeyFields(IsoLocal(n)) == (GetFullYear(n), GetMonth(n) + 1, GetDate(n))
  {
    var y, m, d := GetFullYear(n), GetMonth(n) + 1, GetDate(n);
    assert 1 <= m <= 12 && 1 <= d <= 31;
    KeyFieldsOfIsoKey(y, m, d);
  }

  /** Different days have different keys, so a key stands for one day. */
  lemma IsoLocalInjective(a: DayNumber, b: DayNumber)
    requires IsoLocal(a) == IsoLocal(b)
    ensures a == b
  {
    KeyFieldsOfIsoLocal(a);
    KeyFieldsOfIsoLocal(b);
    GettersOfDay(a);
    GettersOfDay(b);
  }

  /** What `parseDateInput` returns: `null`, a date, or, when a field holds
      anything but decimal digits, a value this model does not follow. */
  datatype ParsedDate = Null | Parsed(day: DayNumber) | NonDecimalField

  /** `parseDateInput(value)`: split at every dash; anything but exactly three
      fields is `null`; three fields are year, month (1-based) and day, read
      as numbers and given to the `Date` constructor. */
  function ParseDateInput(value: string): (r: ParsedDate)
    ensures r.Null? <==> Count(value, '-') != 2
  {
    var parts := Split(value, '-');
    SplitCount(value, '-');
    if |parts| != 3 then Null
    else if !(IsDecimal(parts[0]) && IsDecimal(parts[1]) && IsDecimal(parts[2])) then NonDecimalField
    else Parsed(MakeDate(DecimalValue(parts[0]), DecimalValue(parts[1]) - 1, DecimalValue(parts[2])))
  }

  /** The key of a day reads back as that day, for every year from 100 on
      (the constructor reads years 0 through 99 as 1900 through 1999). */
  lemma ParseIsoLocal(n: DayNumber)
    requires GetFullYear(n) >= 100
    ensures ParseDateInput(IsoLocal(n)) == Parsed(n)
  {
    var y, m, d := GetFullYear(n), GetMonth(n), GetDate(n);
    ParseIsoKey(y, m + 1, d);
    MakeDateExisting(y, m, d);
    GettersOfDay(n);
  }

  /** The key of a date with a non-negative year parses into three fields
      that the constructor receives as year, month index and day. */
  lemma ParseIsoKey(y: int, m: int, d: int)
    requires y >= 0 && 1 <= m <= 12 && 1 <= d <= 31
    ensures ParseDateInput(IsoKey(y, m, d)) == Parsed(MakeDate(y, m - 1, d))
  {
    var ys, ms, ds := NumberToString(y), Pad2(m), Pad2(d);
    SplitIsoKey(y, m, d);
    var parts := Split(IsoKey(y, m, d), '-');
    assert parts[0] == ys && parts[1] == ms && parts[2] == ds && |parts| == 3;
    TwoDigits(m);
    TwoDigits(d);
    DecimalRoundTrip(y);
    assert IsDecimal(ys) && IsDecimal(ms) && IsDecimal(ds);
    assert DecimalValue(ys) == y && DecimalValue(ms) == m && DecimalValue(ds) == d;
  }

  /** A key splits at its two dashes when the year has no minus sign. */
  lemma SplitIsoKey(y: int, m: int, d: int)
    requires y >= 0 && 1 <= m <= 12 && 1 <= d <= 31
    ensures Split(IsoKey(y, m, d), '-') == [NumberToString(y), Pad2(m), Pad2(d)]
  {
    var parts := [NumberToString(y), Pad2(m), Pad2(d)];
    IsoKeyJoin(y, m, d);
    IsoKeyFieldsDashFree(y, m, d);
    SplitJoin(parts, '-');
  }

  /** A key joins its three fields with dashes. */
  lemma IsoKeyJoin(y: int, m: int, d: int)
    requires 1 <= m <= 12 && 1 <= d <= 31
    ensures IsoKey(y, m, d) == Join([NumberToString(y), Pad2(m), Pad2(d)], '-')
  {
    JoinThree(NumberToString(y), Pad2(m), Pad2(d), '-');
  }

  /** None of the fields of a key holds a dash when the year is not
      negative. */
  lemma IsoKeyFieldsDashFree(y: int, m: int, d: int)
    requires y >= 0 && 1 <= m <= 12 && 1 <= d <= 31
    ensures var parts := [NumberToString(y), Pad2(m), Pad2(d)];
      forall i :: 0 <= i < |parts| ==> '-' !in parts[i]
  {
    TwoDigits(m);
    TwoDigits(d);
    DecimalFree(NumberToString(y));
    DecimalFree(Pad2(m));
    DecimalFree(Pad2(d));
  }

  /** A string of digits holds no dash. */
  lemma DecimalFree(s: string)
    requires IsDecimal(s)
    ensures '-' !in s
  {
    forall i | 0 <= i < |s| ensures s[i] != '-' {
      assert IsDigit(s[i]);
    }
  }

  /** A day of a negative year has a key with a leading minus sign, which
      the parser splits into four fields: it reads as `null`. */
  lemma ParseIsoLocalNegativeYear(n: DayNumber)
    requires GetFullYear(n) < 0
    ensures ParseDateInput(IsoLocal(n)) == Null
  {
    KeyDashCount(GetFullYear(n), GetMonth(n) + 1, GetDate(n));
  }

  /** The key of a negative year holds three dashes. */
  lemma KeyDashCount(y: int, m: int, d: int)
    requires y < 0 && 1 <= m <= 12 && 1 <= d <= 31
    ensures Count(IsoKey(y, m, d), '-') == 3
  {
    TwoDigits(m);
    TwoDigits(d);
    assert IsoKey(y, m, d) == "-" + NatToString(-y) + "-" + Pad2(m) + "-" + Pad2(d);
    ThreeDashes(NatToString(-y), Pad2(m), Pad2(d));
  }

  lemma ThreeDashes(a: string, b: string, c: string)
    requires IsDecimal(a) && IsDecimal(b) && IsDecimal(c)
    ensures Count("-" + a + "-" + b + "-" + c, '-') == 3
  {
    CountDecimal(a);
    CountDecimal(b);
    CountDecimal(c);
    CountConcat("-", a, '-');
    CountConcat("-" + a, "-", '-');
    CountConcat("-" + a + "-", b, '-');
    CountConcat("-" + a + "-" + b, "-", '-');
    CountConcat("-" + a + "-" + b + "-", c, '-');
  }

  lemma {:induction false} CountConcat(a: string, b: string, c: char)
    ensures Count(a + b, c) == Count(a, c) + Count(b, c)
    decreases |a|
  {
    if a != [] {
      assert (a + b)[1..] == a[1..] + b;
      CountConcat(a[1..], b, c);
    } else {
      assert a + b == b;
    }
  }

  lemma {:induction false} CountDecimal(s: string)
    requires IsDecimal(s)
    ensures Count(s, '-') == 0
    decreases |s|
  {
    if s != [] {
      assert IsDigit(s[0]);
      CountDecimal(s[1..]);
    }
  }
}
