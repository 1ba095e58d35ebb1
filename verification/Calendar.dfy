/** Time values as the extension sees them: milliseconds from
    1970-01-01T00:00:00Z, split into a UTC day number and a time of day.
    Day numbers convert to proleptic Gregorian dates and back; on top of
    that sit `toISOString`, the report window of `getTimeRange` and the
    `YYYY-MM-DD` key of today's daily record. */
module Calendar {
  import opened Text

  // Time arithmetic is written with literal factors (1000 ms a second,
  // 60000 a minute, 3600000 an hour, 86400000 a day) so that it stays linear.
  /** Largest magnitude a valid ECMAScript time value may have. */
  const MaxTimeValue: int := 8640000000000000

  predicate ValidTime(t: int) { -MaxTimeValue <= t <= MaxTimeValue }

  // ---------------------------------------------------------------------
  // The Gregorian calendar
  // ---------------------------------------------------------------------

  predicate IsLeapYear(y: int) { y % 4 == 0 && (y % 100 != 0 || y % 400 == 0) }

  function DaysInYear(y: int): int { if IsLeapYear(y) then 366 else 365 }

  function DaysInMonth(y: int, m: int): int
    requires 1 <= m <= 12
  {
    if m == 2 then (if IsLeapYear(y) then 29 else 28)
    else if m == 4 || m == 6 || m == 9 || m == 11 then 30
    else 31
  }

  /** Days of year `y` that precede the first of month `m` (`m == 13`: the whole year). */
  function DaysBeforeMonth(y: int, m: int): (r: int)
    requires 1 <= m <= 13
    ensures m == 13 ==> r == DaysInYear(y)
  {
    [0, 31, 59, 90, 120, 151, 181, 212, 243, 273, 304, 334, 365][m - 1]
      + (if 2 < m && IsLeapYear(y) then 1 else 0)
  }

  lemma DaysBeforeMonthStep(y: int, m: int)
    requires 1 <= m <= 12
    ensures DaysBeforeMonth(y, m + 1) == DaysBeforeMonth(y, m) + DaysInMonth(y, m)
  {
  }

  /** Days from 1970-01-01 to the first of January of year `y` (negative before 1970). */
  function DaysBeforeYear(y: int): int
    decreases if 1970 <= y then y - 1970 else 1970 - y
  {
    if y == 1970 then 0
    else if 1970 < y then DaysBeforeYear(y - 1) + DaysInYear(y - 1)
    else DaysBeforeYear(y + 1) - DaysInYear(y)
  }

  lemma DaysBeforeYearStep(y: int)
    ensures DaysBeforeYear(y + 1) == DaysBeforeYear(y) + DaysInYear(y)
  {
  }

  lemma {:induction false} DaysBeforeYearMonotone(a: int, b: int)
    requires a < b
    ensures DaysBeforeYear(a + 1) <= DaysBeforeYear(b)
    decreases b - a
  {
    if a + 1 < b {
      DaysBeforeYearMonotone(a, b - 1);
      DaysBeforeYearStep(b - 1);
    }
  }

  datatype Date = Date(year: int, month: int, day: int)

  predicate ValidDate(d: Date)
  {
    1 <= d.month <= 12 && 1 <= d.day <= DaysInMonth(d.year, d.month)
  }

  /** The day number of a calendar date: 0 is 1970-01-01. */
  function DayNumber(d: Date): int
    requires 1 <= d.month <= 12
  {
    DaysBeforeYear(d.year) + DaysBeforeMonth(d.year, d.month) + d.day - 1
  }

  function YearFrom(z: int, y: int): (r: int)
    requires DaysBeforeYear(y) <= z
    ensures DaysBeforeYear(r) <= z < DaysBeforeYear(r + 1)
    decreases z - DaysBeforeYear(y)
  {
    DaysBeforeYearStep(y);
    if z < DaysBeforeYear(y + 1) then y else YearFrom(z, y + 1)
  }

  function YearUntil(z: int, y: int): (r: int)
    requires z < DaysBeforeYear(y + 1)
    ensures DaysBeforeYear(r) <= z < DaysBeforeYear(r + 1)
    decreases DaysBeforeYear(y + 1) - z
  {
    DaysBeforeYearStep(y);
    if DaysBeforeYear(y) <= z then y else YearUntil(z, y - 1)
  }

  /** The year whose days include day number `z`. */
  function YearOfDay(z: int): (r: int)
    ensures DaysBeforeYear(r) <= z < DaysBeforeYear(r + 1)
  {
    if 0 <= z then YearFrom(z, 1970) else YearUntil(z, 1969)
  }

  function MonthFrom(y: int, doy: int, m: int): (r: int)
    requires 1 <= m <= 12 && DaysBeforeMonth(y, m) <= doy < DaysInYear(y)
    ensures m <= r <= 12 && DaysBeforeMonth(y, r) <= doy < DaysBeforeMonth(y, r + 1)
    decreases 12 - m
  {
    DaysBeforeMonthStep(y, m);
    if doy < DaysBeforeMonth(y, m + 1) then m else MonthFrom(y, doy, m + 1)
  }

  /** The calendar date of day number `z`; it is a valid date and its day
      number is `z` again. */
  function DateOfDay(z: int): (d: Date)
    ensures ValidDate(d) && DayNumber(d) == z
  {
    var y := YearOfDay(z);
    DaysBeforeYearStep(y);
    var doy := z - DaysBeforeYear(y);
    var m := MonthFrom(y, doy, 1);
    DaysBeforeMonthStep(y, m);
    Date(y, m, doy - DaysBeforeMonth(y, m) + 1)
  }

  lemma YearUnique(z: int, a: int, b: int)
    requires DaysBeforeYear(a) <= z < DaysBeforeYear(a + 1)
    requires DaysBeforeYear(b) <= z < DaysBeforeYear(b + 1)
    ensures a == b
  {
    if a < b { DaysBeforeYearMonotone(a, b); }
    if b < a { DaysBeforeYearMonotone(b, a); }
  }

  lemma MonthUnique(y: int, doy: int, a: int, b: int)
    requires 1 <= a <= 12 && 1 <= b <= 12
    requires DaysBeforeMonth(y, a) <= doy < DaysBeforeMonth(y, a + 1)
    requires DaysBeforeMonth(y, b) <= doy < DaysBeforeMonth(y, b + 1)
    ensures a == b
  {
  }

  /** Every valid date is the date of its own day number. */
  lemma DateOfDayNumber(d: Date)
    requires ValidDate(d)
    ensures DateOfDay(DayNumber(d)) == d
  {
    var z := DayNumber(d);
    DaysBeforeYearStep(d.year);
    YearUnique(z, d.year, YearOfDay(z));
    var doy := z - DaysBeforeYear(d.year);
    DaysBeforeMonthStep(d.year, d.month);
    MonthUnique(d.year, doy, d.month, MonthFrom(d.year, doy, 1));
  }

  // ---------------------------------------------------------------------
  // Time values
  // ---------------------------------------------------------------------

  datatype DateTime = DateTime(date: Date, hour: nat, minute: nat, second: nat, milli: nat)

  predicate ValidDateTime(dt: DateTime)
  {
    ValidDate(dt.date) && dt.hour < 24 && dt.minute < 60 && dt.second < 60 && dt.milli < 1000
  }

  function TimeValue(dt: DateTime): int
    requires ValidDate(dt.date)
  {
    DayNumber(dt.date) * 86400000 + dt.hour * 3600000 + dt.minute * 60000
      + dt.second * 1000 + dt.milli
  }

  /** The UTC day of a time value (floor division, as ECMAScript's `Day(t)`). */
  function DayOf(t: int): int { t / 86400000 }

  /** The UTC fields of a time value; putting them back together gives `t`. */
  function DateTimeOf(t: int): (dt: DateTime)
    ensures ValidDateTime(dt) && TimeValue(dt) == t
  {
    var rem := t % 86400000;
    var secs := rem / 1000;
    var mins := secs / 60;
    DateTime(DateOfDay(DayOf(t)), mins / 60, mins % 60, secs % 60, rem % 1000)
  }

  /** Four digits for years 0 to 9999, otherwise a sign and six digits. */
  function YearText(y: int): string
  {
    if 0 <= y <= 9999 then PaddedNat(y, 4)
    else if y < 0 then "-" + PaddedNat(-y, 6)
    else "+" + PaddedNat(y, 6)
  }

  function DateText(d: Date): string
    requires ValidDate(d)
  {
    YearText(d.year) + "-" + PaddedNat(d.month, 2) + "-" + PaddedNat(d.day, 2)
  }

  /** The `THH:MM:SS` part of an ISO string. */
  function ClockText(h: nat, m: nat, s: nat): string
  {
    "T" + PaddedNat(h, 2) + ":" + PaddedNat(m, 2) + ":" + PaddedNat(s, 2)
  }

  /** `new Date(t).toISOString()`: `YYYY-MM-DDTHH:MM:SS.mmmZ`. */
  function IsoString(t: int): string
  {
    var dt := DateTimeOf(t);
    DateText(dt.date) + ClockText(dt.hour, dt.minute, dt.second) + "." + PaddedNat(dt.milli, 3) + "Z"
  }

  predicate FourDigitYear(t: int) { 0 <= DateTimeOf(t).date.year <= 9999 }

  /** Reads `YYYY-MM-DD` back into a date. */
  function ParseDateText(s: string): Date
    requires 10 <= |s| && AllDigits(s[0..4]) && AllDigits(s[5..7]) && AllDigits(s[8..10])
  {
    Date(DigitsValue(s[0..4]), DigitsValue(s[5..7]), DigitsValue(s[8..10]))
  }

  /** A date of a four-digit year prints as `YYYY-MM-DD` and reads back. */
  lemma DateTextRoundTrip(d: Date)
    requires ValidDate(d) && 0 <= d.year <= 9999
    ensures |DateText(d)| == 10 && DateText(d)[4] == '-' && DateText(d)[7] == '-'
    ensures AllDigits(DateText(d)[0..4]) && AllDigits(DateText(d)[5..7]) && AllDigits(DateText(d)[8..10])
    ensures ParseDateText(DateText(d)) == d
  {
    var y, m, dd := PaddedNat(d.year, 4), PaddedNat(d.month, 2), PaddedNat(d.day, 2);
    assert Pow10(2) == 100 && Pow10(4) == 10000;
    PaddedNatDigits(d.year, 4);
    PaddedNatDigits(d.month, 2);
    PaddedNatDigits(d.day, 2);
    var s := DateText(d);
    assert s == y + "-" + m + "-" + dd;
    assert s[0..4] == y;
    assert s[5..7] == m;
    assert s[8..10] == dd;
  }

  /** The date prefix of the ISO string of a four-digit-year instant. */
  lemma IsoStringDatePrefix(t: int)
    requires FourDigitYear(t)
    ensures 20 <= |IsoString(t)|
    ensures IsoString(t)[..10] == DateText(DateTimeOf(t).date)
    ensures IsoString(t)[..19] == DateText(DateTimeOf(t).date) + ClockText(DateTimeOf(t).hour, DateTimeOf(t).minute, DateTimeOf(t).second)
  {
    var dt := DateTimeOf(t);
    assert Pow10(2) == 100 && Pow10(3) == 1000;
    DateTextRoundTrip(dt.date);
    PaddedNatDigits(dt.hour, 2);
    PaddedNatDigits(dt.minute, 2);
    PaddedNatDigits(dt.second, 2);
    PaddedNatDigits(dt.milli, 3);
    var head := DateText(dt.date) + ClockText(dt.hour, dt.minute, dt.second);
    assert |ClockText(dt.hour, dt.minute, dt.second)| == 9;
    assert |head| == 19;
    assert IsoString(t) == head + "." + PaddedNat(dt.milli, 3) + "Z";
    assert IsoString(t)[..19] == head;
    assert head[..10] == DateText(dt.date);
  }

  // ---------------------------------------------------------------------
  // The report window and today's key
  // ---------------------------------------------------------------------

  /** `setUTCHours(h, m, s)`: same day and milliseconds, new hours, minutes, seconds. */
  function SetUtcTime(t: int, h: nat, m: nat, s: nat): int
  {
    DayOf(t) * 86400000 + h * 3600000 + m * 60000 + s * 1000 + t % 1000
  }

  /** `setDate(getDate() + n)`, taken on the UTC calendar. */
  function AddDays(t: int, n: int): int { t + n * 86400000 }

  /** The first 19 characters of the ISO string followed by `Z`. */
  function SecondsIso(t: int): string
  {
    IsoString(t)[..19] + "Z"
  }

  datatype Window = Window(startDate: string, endDate: string)

  function WindowEnd(now: int): int { SetUtcTime(now, 23, 59, 59) }

  function WindowStart(period: int, now: int): int { SetUtcTime(AddDays(now, 1 - period), 0, 0, 0) }

  /** The two strings `getTimeRange(period)` prints at time `now`. */
  function WindowOf(period: int, now: int): Window
  {
    Window(SecondsIso(WindowStart(period, now)), SecondsIso(WindowEnd(now)))
  }

  /** `getTimeRange(period)` at time `now`. `None` when a date leaves the
      ECMAScript range, where `toISOString` throws. */
  function TimeRange(period: int, now: int): Option<Window>
  {
    if ValidTime(now) && ValidTime(WindowEnd(now)) && ValidTime(AddDays(now, 1 - period))
       && ValidTime(WindowStart(period, now))
    then Some(WindowOf(period, now))
    else None
  }

  lemma SetUtcTimeFields(t: int, h: nat, m: nat, s: nat)
    requires h < 24 && m < 60 && s < 60
    ensures DayOf(SetUtcTime(t, h, m, s)) == DayOf(t)
    ensures DateTimeOf(SetUtcTime(t, h, m, s)) == DateTime(DateOfDay(DayOf(t)), h, m, s, t % 1000)
  {
    var u := SetUtcTime(t, h, m, s);
    var rem := h * 3600000 + m * 60000 + s * 1000 + t % 1000;
    assert 0 <= rem < 86400000;
    assert u == DayOf(t) * 86400000 + rem;
    assert u / 86400000 == DayOf(t) && u % 86400000 == rem;
  }

  /** To the second, a four-digit-year instant prints as `YYYY-MM-DDTHH:MM:SSZ`. */
  lemma SecondsIsoText(t: int)
    requires FourDigitYear(t)
    ensures SecondsIso(t) == DateText(DateTimeOf(t).date) + (ClockText(DateTimeOf(t).hour, DateTimeOf(t).minute, DateTimeOf(t).second) + "Z")
  {
    IsoStringDatePrefix(t);
  }

  lemma TwoDigitLiterals()
    ensures PaddedNat(0, 2) == "00" && PaddedNat(23, 2) == "23" && PaddedNat(59, 2) == "59"
  {
    assert NatToString(23) == NatToString(2) + [DigitChar(3)];
    assert NatToString(59) == NatToString(5) + [DigitChar(9)];
  }

  lemma EndOfDayClock()
    ensures ClockText(23, 59, 59) + "Z" == "T23:59:59Z"
  {
    TwoDigitLiterals();
  }

  lemma StartOfDayClock()
    ensures ClockText(0, 0, 0) + "Z" == "T00:00:00Z"
  {
    TwoDigitLiterals();
  }

  lemma WindowEndText(now: int)
    requires FourDigitYear(WindowEnd(now))
    ensures SecondsIso(WindowEnd(now)) == DateText(DateOfDay(DayOf(now))) + "T23:59:59Z"
  {
    var e := WindowEnd(now);
    SetUtcTimeFields(now, 23, 59, 59);
    var dt := DateTimeOf(e);
    assert dt.date == DateOfDay(DayOf(now)) && dt.hour == 23 && dt.minute == 59 && dt.second == 59;
    SecondsIsoText(e);
    EndOfDayClock();
  }

  lemma WindowStartDay(period: int, now: int)
    ensures DayOf(WindowStart(period, now)) == DayOf(now) - period + 1
    ensures DateTimeOf(WindowStart(period, now)).date == DateOfDay(DayOf(now) - period + 1)
  {
    var shifted := AddDays(now, 1 - period);
    assert shifted == now + (1 - period) * 86400000;
    assert DayOf(shifted) == DayOf(now) - period + 1;
    SetUtcTimeFields(shifted, 0, 0, 0);
  }

  lemma WindowStartText(period: int, now: int)
    requires FourDigitYear(WindowStart(period, now))
    ensures SecondsIso(WindowStart(period, now)) == DateText(DateOfDay(DayOf(now) - period + 1)) + "T00:00:00Z"
  {
    WindowStartDay(period, now);
    SetUtcTimeFields(AddDays(now, 1 - period), 0, 0, 0);
    SecondsIsoText(WindowStart(period, now));
    StartOfDayClock();
  }

  /** The window ends today at 23:59:59 and starts `period - 1` days
      earlier at 00:00:00, both to the second with a `Z` suffix. */
  lemma WindowShape(period: int, now: int)
    requires FourDigitYear(WindowStart(period, now)) && FourDigitYear(WindowEnd(now))
    ensures WindowOf(period, now).endDate == DateText(DateOfDay(DayOf(now))) + "T23:59:59Z"
    ensures WindowOf(period, now).startDate == DateText(DateOfDay(DayOf(now) - period + 1)) + "T00:00:00Z"
  {
    WindowEndText(now);
    WindowStartText(period, now);
  }

  predicate DateTextShaped(s: string)
  {
    10 <= |s| && AllDigits(s[0..4]) && AllDigits(s[5..7]) && AllDigits(s[8..10])
  }

  /** A string that starts with a printed four-digit-year date reads back as that date. */
  lemma ParseDatePrefix(d: Date, rest: string)
    requires ValidDate(d) && 0 <= d.year <= 9999
    ensures DateTextShaped(DateText(d) + rest)
    ensures ParseDateText(DateText(d) + rest) == d
  {
    DateTextRoundTrip(d);
    var s := DateText(d) + rest;
    assert s[0..4] == DateText(d)[0..4] && s[5..7] == DateText(d)[5..7] && s[8..10] == DateText(d)[8..10];
  }

  /** Read back, the two dates of the window are `period` days apart
      counting both ends. */
  lemma WindowSpan(period: int, now: int)
    requires FourDigitYear(WindowStart(period, now)) && FourDigitYear(WindowEnd(now))
    ensures DateTextShaped(WindowOf(period, now).startDate)
    ensures DateTextShaped(WindowOf(period, now).endDate)
    ensures ValidDate(ParseDateText(WindowOf(period, now).startDate))
    ensures ValidDate(ParseDateText(WindowOf(period, now).endDate))
    ensures DayNumber(ParseDateText(WindowOf(period, now).endDate))
      - DayNumber(ParseDateText(WindowOf(period, now).startDate)) + 1 == period
  {
    StartReadsBack(period, now);
    EndReadsBack(now);
  }

  /** The start string reads back as the date `period - 1` days before today. */
  lemma StartReadsBack(period: int, now: int)
    requires FourDigitYear(WindowStart(period, now))
    ensures DateTextShaped(SecondsIso(WindowStart(period, now)))
    ensures ParseDateText(SecondsIso(WindowStart(period, now))) == DateOfDay(DayOf(now) - period + 1)
  {
    WindowStartText(period, now);
    StartYear(period, now);
    ParseDatePrefix(DateOfDay(DayOf(now) - period + 1), "T00:00:00Z");
  }

  /** The end string reads back as today's date. */
  lemma EndReadsBack(now: int)
    requires FourDigitYear(WindowEnd(now))
    ensures DateTextShaped(SecondsIso(WindowEnd(now)))
    ensures ParseDateText(SecondsIso(WindowEnd(now))) == DateOfDay(DayOf(now))
  {
    WindowEndText(now);
    EndYear(now);
    ParseDatePrefix(DateOfDay(DayOf(now)), "T23:59:59Z");
  }

  lemma StartYear(period: int, now: int)
    requires FourDigitYear(WindowStart(period, now))
    ensures 0 <= DateOfDay(DayOf(now) - period + 1).year <= 9999
  {
    WindowStartDay(period, now);
  }

  lemma EndYear(now: int)
    requires FourDigitYear(WindowEnd(now))
    ensures 0 <= DateOfDay(DayOf(now)).year <= 9999
  {
    SetUtcTimeFields(now, 23, 59, 59);
  }

  /** `new Date().toISOString().substring(0, 10)`: the key of today's daily record. */
  function DateKey(now: int): string
  {
    IsoString(now)[..10]
  }

  /** Two instants share a daily key exactly when they fall on the same UTC day. */
  lemma DateKeySameDay(a: int, b: int)
    requires FourDigitYear(a) && FourDigitYear(b)
    ensures DateKey(a) == DateKey(b) <==> DayOf(a) == DayOf(b)
  {
    IsoStringDatePrefix(a);
    IsoStringDatePrefix(b);
    var da, db := DateTimeOf(a).date, DateTimeOf(b).date;
    DateTextRoundTrip(da);
    DateTextRoundTrip(db);
    if DateKey(a) == DateKey(b) {
      assert da == ParseDateText(DateText(da)) == ParseDateText(DateText(db)) == db;
      assert DayOf(a) == DayNumber(da) == DayNumber(db) == DayOf(b);
    }
  }
}
