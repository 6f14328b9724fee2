/**
  The proleptic Gregorian calendar as Python's `datetime` and pandas use it:
  month lengths, the ordinal day number (`date.toordinal()`), the weekday
  (`date.weekday()`), English month and weekday names, and the carrying of an
  overflowing second into the next minute.
 */
module Calendar {

  datatype Date = Date(year: int, month: int, day: int)

  datatype DateTime = DateTime(date: Date, hour: int, minute: int, second: int)

  predicate IsLeap(y: int) {
    y % 4 == 0 && (y % 100 != 0 || y % 400 == 0)
  }

  function DaysInMonth(y: int, m: int): (n: int)
    requires 1 <= m <= 12
    ensures 28 <= n <= 31
  {
    if m == 2 then (if IsLeap(y) then 29 else 28)
    else if m == 4 || m == 6 || m == 9 || m == 11 then 30
    else 31
  }

  function YearLength(y: int): int {
    if IsLeap(y) then 366 else 365
  }

  /** A date `datetime.date(year, month, day)` accepts (years before 1 are not used here). */
  predicate ValidDate(d: Date) {
    d.year >= 1 && 1 <= d.month <= 12 && 1 <= d.day <= DaysInMonth(d.year, d.month)
  }

  /** A normalised timestamp: a valid date and a time of day in range. */
  predicate ValidDateTime(t: DateTime) {
    ValidDate(t.date) && 0 <= t.hour <= 23 && 0 <= t.minute <= 59 && 0 <= t.second <= 59
  }

  /** Days in the years before `y`, as `datetime._days_before_year`. */
  function DaysBeforeYear(y: int): int
    requires y >= 1
  {
    var p := y - 1;
    p * 365 + p / 4 - p / 100 + p / 400
  }

  /** Days in the months of `y` before `m`, as `datetime._days_before_month`. */
  function DaysBeforeMonth(y: int, m: int): int
    requires 1 <= m <= 12
  {
    var table := [0, 31, 59, 90, 120, 151, 181, 212, 243, 273, 304, 334];
    table[m - 1] + (if m > 2 && IsLeap(y) then 1 else 0)
  }

  /** `date.toordinal()`: 0001-01-01 is day 1. */
  function Ordinal(d: Date): int
    requires ValidDate(d)
  {
    DaysBeforeYear(d.year) + DaysBeforeMonth(d.year, d.month) + d.day
  }

  /** `date.weekday()`: Monday is 0 and Sunday is 6. */
  function Weekday(d: Date): (w: nat)
    requires ValidDate(d)
    ensures w < 7
  {
    (Ordinal(d) + 6) % 7
  }

  /** The calendar day after `d`. */
  function NextDay(d: Date): (r: Date)
    requires ValidDate(d)
    ensures ValidDate(r)
  {
    if d.day < DaysInMonth(d.year, d.month) then Date(d.year, d.month, d.day + 1)
    else if d.month < 12 then Date(d.year, d.month + 1, 1)
    else Date(d.year + 1, 1, 1)
  }

  lemma YearDivisionSteps(y: int)
    requires y >= 1
    ensures y / 4 - (y - 1) / 4 == (if y % 4 == 0 then 1 else 0)
    ensures y / 100 - (y - 1) / 100 == (if y % 100 == 0 then 1 else 0)
    ensures y / 400 - (y - 1) / 400 == (if y % 400 == 0 then 1 else 0)
  {
  }

  /** A multiple of 400 is a multiple of 100, and a multiple of 100 one of 4. */
  lemma CenturyDivisibility(y: int)
    ensures y % 400 == 0 ==> y % 100 == 0
    ensures y % 100 == 0 ==> y % 4 == 0
  {
    if y % 400 == 0 {
      var k := y / 400;
      assert y == 100 * (4 * k);
    }
    if y % 100 == 0 {
      var k := y / 100;
      assert y == 4 * (25 * k);
    }
  }

  /** Consecutive years are `YearLength` days apart. */
  lemma DaysBeforeNextYear(y: int)
    requires y >= 1
    ensures DaysBeforeYear(y + 1) == DaysBeforeYear(y) + YearLength(y)
  {
    var p := y - 1;
    YearDivisionSteps(y);
    CenturyDivisibility(y);
    assert DaysBeforeYear(y + 1) - DaysBeforeYear(y) == 365 + (y / 4 - p / 4) - (y / 100 - p / 100) + (y / 400 - p / 400);
  }

  /** The ordinal of the next day is one more: the day count has no gaps or repeats
      at month and year ends. */
  lemma OrdinalNextDay(d: Date)
    requires ValidDate(d)
    ensures Ordinal(NextDay(d)) == Ordinal(d) + 1
  {
    if d.day == DaysInMonth(d.year, d.month) && d.month == 12 {
      DaysBeforeNextYear(d.year);
    }
  }

  /** Weekdays advance by one, cyclically, from one day to the next. */
  lemma WeekdayNextDay(d: Date)
    requires ValidDate(d)
    ensures Weekday(NextDay(d)) == (Weekday(d) + 1) % 7
  {
    OrdinalNextDay(d);
    var o := Ordinal(d) + 6;
    assert Ordinal(NextDay(d)) + 6 == o + 1;
    ModSevenStep(o);
  }

  lemma ModSevenStep(o: int)
    ensures (o + 1) % 7 == (o % 7 + 1) % 7
  {
    var q, r := o / 7, o % 7;
    assert o == 7 * q + r;
    if r < 6 {
      assert o + 1 == 7 * q + (r + 1);
    } else {
      assert o + 1 == 7 * (q + 1);
    }
  }

  /** The anchor of the cycle: 1 January 1970 was a Thursday. */
  lemma WeekdayOfUnixEpoch()
    ensures ValidDate(Date(1970, 1, 1)) && Weekday(Date(1970, 1, 1)) == 3
  {
  }

  const MonthNames: seq<string> := ["January", "February", "March", "April", "May", "June", "July",
                                    "August", "September", "October", "November", "December"]

  const DayNames: seq<string> := ["Monday", "Tuesday", "Wednesday", "Thursday", "Friday",
                                  "Saturday", "Sunday"]

  /** `Timestamp.month_name()` for month number `m`. */
  function MonthName(m: int): string
    requires 1 <= m <= 12
  {
    MonthNames[m - 1]
  }

  /** `Timestamp.day_name()`: the English name of the weekday of `d`. */
  function DayName(d: Date): string
    requires ValidDate(d)
  {
    DayNames[Weekday(d)]
  }

  /** The day names run through the week in order, Monday to Sunday and round
      again, and 1 January 1970 is a Thursday. */
  lemma DayNameNextDay(d: Date)
    requires ValidDate(d)
    ensures ValidDate(NextDay(d))
    ensures DayName(d) in DayNames
    ensures forall k {:trigger DayNames[k]} :: 0 <= k < 7 && DayName(d) == DayNames[k] ==> DayName(NextDay(d)) == DayNames[(k + 1) % 7]
    ensures DayName(Date(1970, 1, 1)) == "Thursday"
  {
    WeekdayNextDay(d);
    WeekdayOfUnixEpoch();
    var k := Weekday(d);
    assert DayName(d) == DayNames[k];
  }

  /** The same instant one minute later. */
  function AddMinute(t: DateTime): (r: DateTime)
    requires ValidDate(t.date) && 0 <= t.hour <= 23 && 0 <= t.minute <= 59
    ensures ValidDate(r.date) && 0 <= r.hour <= 23 && 0 <= r.minute <= 59 && r.second == t.second
  {
    if t.minute < 59 then DateTime(t.date, t.hour, t.minute + 1, t.second)
    else if t.hour < 23 then DateTime(t.date, t.hour + 1, 0, t.second)
    else DateTime(NextDay(t.date), 0, 0, t.second)
  }

  /** The instant the fields of `t` denote, in seconds: the linear combination with
      which a date and time of day are turned into one count (pandas' conversion of
      a parsed field record into a timestamp). The date must be valid; the
      time-of-day fields may be out of range (a second of 60 counts as 60). */
  function Seconds(t: DateTime): int
    requires ValidDate(t.date)
  {
    ((Ordinal(t.date) * 24 + t.hour) * 60 + t.minute) * 60 + t.second
  }

  /** `AddMinute` moves the instant forward by exactly sixty seconds. */
  lemma AddMinuteAddsSixtySeconds(t: DateTime)
    requires ValidDate(t.date) && 0 <= t.hour <= 23 && 0 <= t.minute <= 59
    ensures Seconds(AddMinute(t)) == Seconds(t) + 60
  {
    if t.minute == 59 && t.hour == 23 {
      OrdinalNextDay(t.date);
    }
  }

  /** Brings a field record whose second may be 60 or 61 into range, keeping the
      instant it denotes. */
  function Normalize(t: DateTime): (r: DateTime)
    requires ValidDate(t.date) && 0 <= t.hour <= 23 && 0 <= t.minute <= 59 && 0 <= t.second <= 61
    ensures ValidDateTime(r)
    ensures Seconds(r) == Seconds(t)
    ensures t.second <= 59 ==> r == t
  {
    if t.second <= 59 then t
    else
      var m := AddMinute(DateTime(t.date, t.hour, t.minute, t.second - 60));
      AddMinuteAddsSixtySeconds(DateTime(t.date, t.hour, t.minute, t.second - 60));
      m
  }
}
