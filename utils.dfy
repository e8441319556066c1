/** The pure helpers of web_service/utils.py: the 24-hour to 12-hour
    conversion, the `%Y-%m-%d` date check and the "is it in the future"
    check, with the current time passed in instead of read from the clock. */
module Utils {
  import opened Wrappers
  import opened Text
  import opened Clock

  // ---------------------------------------------------------------------
  // convert_to_am_pm
  // ---------------------------------------------------------------------

  /** `convert_to_am_pm(hour, minute)`: the 12-hour label of a 24-hour
      time, or the ValueError message for an hour outside 0..23 (checked
      first) or a minute outside 0..59. */
  function ConvertToAmPm(hour: int, minute: int): (r: Result<string, string>)
    ensures r.Ok? <==> 0 <= hour < 24 && 0 <= minute < 60
    ensures !(0 <= hour < 24) ==>
      r == Err("Invalid hour " + IntToString(hour) + ". Must be between 0 and 23.")
    ensures 0 <= hour < 24 && !(0 <= minute < 60) ==>
      r == Err("Invalid minute " + IntToString(minute) + ". Must be between 0 and 59.")
  {
    if !(0 <= hour < 24) then Err("Invalid hour " + IntToString(hour) + ". Must be between 0 and 23.")
    else if !(0 <= minute < 60) then Err("Invalid minute " + IntToString(minute) + ". Must be between 0 and 59.")
    else if hour == 0 then Ok("12:" + Pad2(minute) + " am")
    else if hour < 12 then Ok(NatToString(hour) + ":" + Pad2(minute) + " am")
    else if hour == 12 then Ok("12:" + Pad2(minute) + " pm")
    else Ok(NatToString(hour - 12) + ":" + Pad2(minute) + " pm")
  }

  /** The label is the clock-face hour (1..12, no leading zero), a colon,
      the minute as exactly two digits, and "am" before noon, "pm" from
      noon on. */
  lemma ConvertToAmPmShape(hour: int, minute: int)
    requires 0 <= hour < 24 && 0 <= minute < 60
    ensures ConvertToAmPm(hour, minute) == Ok(Compose(NatToString(ClockHour(hour)), minute, hour >= 12))
  {
    var mm := Pad2(minute);
    assert NatToString(12) == "12";
    if hour == 0 || hour == 12 {
      assert "12:" + mm == "12" + ":" + mm;
    }
  }

  /** Reading the label back with `%I:%M %p` gives the same time:
      make_reservation relies on this when it compares slot times with
      `strptime(requested_am_pm, "%I:%M %p")`. */
  lemma {:induction false} ConvertToAmPmRoundTrip(hour: int, minute: int)
    requires 0 <= hour < 24 && 0 <= minute < 60
    ensures ParseLabel(ConvertToAmPm(hour, minute).value) == Some(hour * 60 + minute)
  {
    ConvertToAmPmShape(hour, minute);
    ParseCompose(ClockHour(hour), minute, hour >= 12);
    ClockHourMinutes(hour, minute);
  }

  /** The clock-face hour and the meridiem name the 24-hour time. */
  lemma ClockHourMinutes(hour: nat, minute: nat)
    requires hour < 24 && minute < 60
    ensures ClockMinutes(ClockHour(hour), minute, hour >= 12) == hour * 60 + minute
  {
    var h := ClockHour(hour) % 12 + (if hour >= 12 then 12 else 0);
    assert h == hour;
  }

  /** Conversely every parsable label is the conversion of the time it
      denotes, so the labels are exactly the images of valid times. */
  lemma {:induction false} LabelIsConverted(s: string)
    requires ParseLabel(s).Some?
    ensures var t := ParseLabel(s).value; ConvertToAmPm(t / 60, t % 60) == Ok(s)
  {
    var hour, minute, pm := ParseDecompose(s);
    var t := ParseLabel(s).value;
    var h24 := hour % 12 + (if pm then 12 else 0);
    assert t == h24 * 60 + minute;
    assert t / 60 == h24 && t % 60 == minute;
    assert ClockHour(h24) == hour;
    ConvertToAmPmShape(h24, minute);
  }

  /** Two labels that parse to the same time are the same text. */
  lemma {:induction false} ParseLabelInjective(a: string, b: string)
    requires ParseLabel(a).Some? && ParseLabel(a) == ParseLabel(b)
    ensures a == b
  {
    LabelIsConverted(a);
    LabelIsConverted(b);
  }

  // ---------------------------------------------------------------------
  // Calendar dates and validate_date
  // ---------------------------------------------------------------------

  datatype Date = Date(year: int, month: int, day: int)

  predicate IsLeapYear(year: int) {
    year % 4 == 0 && (year % 100 != 0 || year % 400 == 0)
  }

  function DaysInMonth(year: int, month: int): (n: nat)
    requires 1 <= month <= 12
    ensures 28 <= n <= 31
  {
    if month == 2 then (if IsLeapYear(year) then 29 else 28)
    else if month == 4 || month == 6 || month == 9 || month == 11 then 30
    else 31
  }

  /** A date `datetime` accepts: year 1 to 9999, month 1 to 12, and a day
      that exists in that month. */
  predicate ValidDate(d: Date) {
    1 <= d.year <= 9999 && 1 <= d.month <= 12 && 1 <= d.day <= DaysInMonth(d.year, d.month)
  }

  /** `f"{year:04d}"` for a year of at most four digits. */
  function Pad4(n: nat): (s: string)
    requires n < 10000
    ensures |s| == 4 && AllDigits(s)
  {
    Pad2(n / 100) + Pad2(n % 100)
  }

  /** Four digits read as two pairs. */
  lemma Digits4(s: string)
    requires |s| == 4 && AllDigits(s)
    ensures DigitsValue(s) == DigitsValue(s[..2]) * 100 + DigitsValue(s[2..])
  {
    var t := s[2..];
    assert s[..3] == s[..2] + [s[2]];
    assert s[..3][..2] == s[..2];
    assert t[..1] == [s[2]] && t[..1][..0] == [];
    assert DigitsValue(t[..1]) == DigitValue(s[2]);
    assert DigitsValue(t) == DigitValue(s[2]) * 10 + DigitValue(s[3]);
  }

  lemma Pad4Value(n: nat)
    requires n < 10000
    ensures DigitsValue(Pad4(n)) == n
  {
    var s := Pad4(n);
    assert s[..2] == Pad2(n / 100) && s[2..] == Pad2(n % 100);
    Digits4(s);
  }

  lemma Pad4Inverse(s: string)
    requires |s| == 4 && AllDigits(s)
    ensures DigitsValue(s) < 10000 && Pad4(DigitsValue(s)) == s
  {
    Digits4(s);
    Pad2Inverse(s[..2]);
    Pad2Inverse(s[2..]);
    var v := DigitsValue(s);
    assert v / 100 == DigitsValue(s[..2]) && v % 100 == DigitsValue(s[2..]);
    assert s == s[..2] + s[2..];
  }

  /** Fields that `%Y-%m-%d` can spell: four digits, two and two. */
  predicate Spellable(d: Date) {
    0 <= d.year < 10000 && 0 <= d.month < 100 && 0 <= d.day < 100
  }

  /** The `%Y-%m-%d` text of a date. */
  function FormatDate(d: Date): string
    requires Spellable(d)
  {
    Pad4(d.year) + "-" + Pad2(d.month) + "-" + Pad2(d.day)
  }

  function InvalidDateMessage(s: string): string {
    "Invalid date '" + s + "'. Expected format %Y-%m-%d."
  }

  /** `validate_date(s)`: the date a `YYYY-MM-DD` text names, or the
      ValueError message when the text has another shape or names no
      calendar day (month 13, February 30, year 0). */
  function ValidateDate(s: string): (r: Result<Date, string>)
    ensures r.Ok? ==> ValidDate(r.value)
    ensures r.Err? ==> r.error == InvalidDateMessage(s)
  {
    if |s| != 10 || s[4] != '-' || s[7] != '-'
       || !AllDigits(s[..4]) || !AllDigits(s[5..7]) || !AllDigits(s[8..])
    then Err(InvalidDateMessage(s))
    else
      var d := Date(DigitsValue(s[..4]), DigitsValue(s[5..7]), DigitsValue(s[8..]));
      if ValidDate(d) then Ok(d) else Err(InvalidDateMessage(s))
  }

  /** An accepted text is the canonical spelling of the date it names. */
  lemma ValidateDateCanonical(s: string)
    requires ValidateDate(s).Ok?
    ensures FormatDate(ValidateDate(s).value) == s
  {
    Pad4Inverse(s[..4]);
    Pad2Inverse(s[5..7]);
    Pad2Inverse(s[8..]);
    assert s == s[..4] + "-" + s[5..7] + "-" + s[8..];
  }

  /** A well-shaped text is accepted exactly when it names a calendar
      date, and then as that date. */
  lemma ValidateDateAccepts(d: Date)
    requires Spellable(d)
    ensures ValidateDate(FormatDate(d)) == if ValidDate(d) then Ok(d) else Err(InvalidDateMessage(FormatDate(d)))
  {
    var s := FormatDate(d);
    assert s[..4] == Pad4(d.year) && s[5..7] == Pad2(d.month) && s[8..] == Pad2(d.day);
    Pad4Value(d.year);
  }

  lemma AcceptsExample(d: Date, s: string)
    requires Spellable(d) && FormatDate(d) == s
    ensures ValidateDate(s) == if ValidDate(d) then Ok(d) else Err(InvalidDateMessage(s))
  {
    ValidateDateAccepts(d);
  }

  /** An ordinary date is accepted as that date. */
  lemma ValidateDateExamples()
    ensures ValidateDate("2025-02-14") == Ok(Date(2025, 2, 14))
  {
    AcceptsExample(Date(2025, 2, 14), "2025-02-14");
  }

  /** February 29 of a leap year is accepted. */
  lemma ValidateLeapDayExample()
    ensures ValidateDate("2024-02-29") == Ok(Date(2024, 2, 29))
  {
    AcceptsExample(Date(2024, 2, 29), "2024-02-29");
  }

  /** February 29 of a common year and February 30 are refused. */
  lemma ValidateDateRefusals()
    ensures ValidateDate("2025-02-29").Err?
    ensures ValidateDate("2025-02-30").Err?
  {
    AcceptsExample(Date(2025, 2, 29), "2025-02-29");
    AcceptsExample(Date(2025, 2, 30), "2025-02-30");
  }

  /** A thirteenth month and a year zero are refused too. */
  lemma ValidateDateRangeRefusals()
    ensures ValidateDate("2025-13-01").Err?
    ensures ValidateDate("0000-01-01").Err?
  {
    AcceptsExample(Date(2025, 13, 1), "2025-13-01");
    AcceptsExample(Date(0, 1, 1), "0000-01-01");
  }

  // ---------------------------------------------------------------------
  // validate_reservation_date
  // ---------------------------------------------------------------------

  /** A `datetime` value, down to the microsecond. */
  datatype Moment = Moment(date: Date, hour: int, minute: int, second: int, microsecond: int)

  predicate ValidMoment(t: Moment) {
    ValidDate(t.date) && 0 <= t.hour < 24 && 0 <= t.minute < 60 && 0 <= t.second < 60
    && 0 <= t.microsecond < 1000000
  }

  /** `a > b` on `datetime`: field by field, most significant first. */
  predicate Later(a: Moment, b: Moment) {
    if a.date.year != b.date.year then a.date.year > b.date.year
    else if a.date.month != b.date.month then a.date.month > b.date.month
    else if a.date.day != b.date.day then a.date.day > b.date.day
    else if a.hour != b.hour then a.hour > b.hour
    else if a.minute != b.minute then a.minute > b.minute
    else if a.second != b.second then a.second > b.second
    else a.microsecond > b.microsecond
  }

  /** `validate_reservation_date(date, hour, minute)` with `now` standing
      for `datetime.now()`: is midnight-of-`date` replaced by
      `hour:minute` strictly later than now? The callers have already
      validated the date, hour and minute. The answer is whether the
      requested minute lies strictly after the current instant on the
      time line. */
  function ValidateReservationDate(date: string, hour: int, minute: int, now: Moment): (r: bool)
    requires ValidateDate(date).Ok? && 0 <= hour < 24 && 0 <= minute < 60
    ensures ValidMoment(now) ==>
      (r <==> Timestamp(Moment(ValidateDate(date).value, hour, minute, 0, 0)) > Timestamp(now))
  {
    var requested := Moment(ValidateDate(date).value, hour, minute, 0, 0);
    if ValidMoment(now) then
      LaterIsTimestampOrder(requested, now);
      Later(requested, now)
    else Later(requested, now)
  }

  // An independent reading of time: days since 0001-01-01 (Python's
  // `date.toordinal`) and microseconds since its midnight.

  function DaysBeforeYear(year: int): int
    requires year >= 1
  {
    var y := year - 1;
    y * 365 + y / 4 - y / 100 + y / 400
  }

  function YearLength(year: int): nat {
    if IsLeapYear(year) then 366 else 365
  }

  function DaysBeforeMonth(year: int, month: int): nat
    requires 1 <= month <= 12
  {
    [0, 31, 59, 90, 120, 151, 181, 212, 243, 273, 304, 334][month - 1]
    + (if month > 2 && IsLeapYear(year) then 1 else 0)
  }

  function Ordinal(d: Date): int
    requires ValidDate(d)
  {
    DaysBeforeYear(d.year) + DaysBeforeMonth(d.year, d.month) + d.day
  }

  function Timestamp(t: Moment): int
    requires ValidMoment(t)
  {
    (((Ordinal(t.date) * 24 + t.hour) * 60 + t.minute) * 60 + t.second) * 1000000 + t.microsecond
  }

  /** Quotient and remainder by the leap-year divisors are unique. */
  lemma DivUnique(x: int, k: int, q: int, r: int)
    requires k == 4 || k == 100 || k == 400
    requires x == k * q + r && 0 <= r < k
    ensures x / k == q && x % k == r
  {
    if k == 4 {
      assert x == 4 * q + r;
    } else if k == 100 {
      assert x == 100 * q + r;
    } else {
      assert x == 400 * q + r;
    }
  }

  /** One more year adds one more multiple of `k` exactly when the new
      year is a multiple of `k`. */
  lemma CountStep(y: int, k: int)
    requires y >= 0 && (k == 4 || k == 100 || k == 400)
    ensures (y + 1) / k == y / k + (if (y + 1) % k == 0 then 1 else 0)
  {
    var q, r := y / k, y % k;
    assert y == k * q + r && 0 <= r < k by {
      if k == 4 { assert y == 4 * q + r; }
      else if k == 100 { assert y == 100 * q + r; }
      else { assert y == 400 * q + r; }
    }
    if r == k - 1 {
      DivUnique(y + 1, k, q + 1, 0);
    } else {
      DivUnique(y + 1, k, q, r + 1);
    }
  }

  /** The closed form counts the days of one more year, leap or not. */
  lemma YearStep(year: int)
    requires year >= 1
    ensures DaysBeforeYear(year + 1) == DaysBeforeYear(year) + YearLength(year)
  {
    var y := year - 1;
    CountStep(y, 4);
    CountStep(y, 100);
    CountStep(y, 400);
    if year % 400 == 0 {
      DivUnique(year, 100, 4 * (year / 400), 0);
      DivUnique(year, 4, 100 * (year / 400), 0);
    }
    if year % 100 == 0 {
      DivUnique(year, 4, 25 * (year / 100), 0);
    }
  }

  lemma {:induction false} YearsIncrease(a: int, b: int)
    requires 1 <= a < b
    ensures DaysBeforeYear(a) + YearLength(a) <= DaysBeforeYear(b)
    decreases b - a
  {
    YearStep(a);
    if a + 1 < b {
      YearsIncrease(a + 1, b);
    }
  }

  lemma MonthsIncrease(year: int, a: int, b: int)
    requires 1 <= a <= 12 && (a < b <= 12 || b == 13)
    ensures DaysBeforeMonth(year, a) + DaysInMonth(year, a)
            <= (if b == 13 then YearLength(year) else DaysBeforeMonth(year, b))
  {
  }

  /** Calendar order is day-number order. */
  lemma OrdinalIncreases(a: Date, b: Date)
    requires ValidDate(a) && ValidDate(b)
    requires a.year < b.year || (a.year == b.year && (a.month < b.month || (a.month == b.month && a.day < b.day)))
    ensures Ordinal(a) < Ordinal(b)
  {
    if a.year < b.year {
      MonthsIncrease(a.year, a.month, 13);
      YearsIncrease(a.year, b.year);
    } else if a.month < b.month {
      MonthsIncrease(a.year, a.month, b.month);
    }
  }

  lemma {:induction false} LaterIsTimestampOrder(a: Moment, b: Moment)
    requires ValidMoment(a) && ValidMoment(b)
    ensures Later(a, b) <==> Timestamp(a) > Timestamp(b)
  {
    if a.date != b.date {
      if Later(a, b) {
        OrdinalIncreases(b.date, a.date);
      } else {
        OrdinalIncreases(a.date, b.date);
      }
    }
  }

  /** A request for the current minute is already in the past once a
      second of that minute has gone by. */
  lemma SameMinuteIsPast()
    ensures ValidateDate("2025-02-14").Ok?
    ensures !ValidateReservationDate("2025-02-14", 19, 0, Moment(Date(2025, 2, 14), 19, 0, 1, 0))
    ensures !ValidateReservationDate("2025-02-14", 19, 0, Moment(Date(2025, 2, 14), 19, 0, 0, 0))
    ensures ValidateReservationDate("2025-02-14", 19, 1, Moment(Date(2025, 2, 14), 19, 0, 59, 999999))
  {
    ValidateDateExamples();
  }
}
