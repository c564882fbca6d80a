// Calendar arithmetic of io/cmos.h against the formula for "seconds since the Epoch" of
// IEEE Std 1003.1-2017, XBD section 4.16. The date comes in decoded, from the clock chip.
module Calendar {
  import opened Machine

  const DAY: nat := 86400

  /** is_leap_year. */
  predicate IsLeap(year: nat) {
    if year % 4 == 0 then if year % 100 == 0 then year % 400 == 0 else true else false
  }

  function YearDays(year: nat): nat { if IsLeap(year) then 366 else 365 }

  /** Days of the years 1970..last. */
  function DaysThrough(last: nat): nat {
    if last <= 1969 then 0 else YearDays(last) + DaysThrough(last - 1)
  }

  /** The day part of the standard's formula, for January 1st of `year`, with tm_year = year - 1900. */
  function PosixDays(year: nat): int
    requires year >= 1970
  {
    365 * (year - 1970) + (year - 1969) / 4 - (year - 1901) / 100 + (year - 1601) / 400
  }

  lemma Fourth(year: nat)
    requires year >= 1970
    ensures (year - 1968) / 4 - (year - 1969) / 4 == if year % 4 == 0 then 1 else 0
  {
  }

  lemma Hundredth(year: nat)
    requires year >= 1970
    ensures (year - 1900) / 100 - (year - 1901) / 100 == if year % 100 == 0 then 1 else 0
  {
  }

  lemma FourHundredth(year: nat)
    requires year >= 1970
    ensures (year - 1600) / 400 - (year - 1601) / 400 == if year % 400 == 0 then 1 else 0
  {
  }

  lemma Centuries(year: nat)
    ensures year % 100 == 0 ==> year % 4 == 0
    ensures year % 400 == 0 ==> year % 100 == 0
  {
    if year % 100 == 0 { assert year == 4 * (25 * (year / 100)); }
    if year % 400 == 0 { assert year == 100 * (4 * (year / 400)); }
  }

  lemma {:induction false} LeapStep(year: nat)
    requires year >= 1970
    ensures PosixDays(year + 1) == PosixDays(year) + YearDays(year)
  {
    Fourth(year);
    Hundredth(year);
    FourHundredth(year);
    Centuries(year);
  }

  /** Counting year by year agrees with the closed form, century rules included. */
  lemma {:induction false} DaysClosedForm(year: nat)
    requires year >= 1970
    ensures DaysThrough(year - 1) == PosixDays(year)
  {
    if year > 1970 {
      DaysClosedForm(year - 1);
      LeapStep(year - 1);
    }
  }

  /** secs_of_years, counting down from 2000 + years. */
  method SecsOfYears(years: int) returns (secs: word)
    requires years >= -2000
    ensures secs == Wrap(DaysThrough(2000 + years) * DAY)
  {
    var days, year := 0, years + 2000;
    while year > 1969
      invariant year >= 0 && days + DaysThrough(year) == DaysThrough(2000 + years)
    {
      days := days + 365;
      if year % 4 == 0 {
        if year % 100 == 0 {
          if year % 400 == 0 {
            days := days + 1;
          }
        } else {
          days := days + 1;
        }
      }
      year := year - 1;
    }
    return Wrap(days * DAY);
  }

  /** Lengths of the twelve months. */
  function MonthDays(month: nat, year: nat): nat
    requires 1 <= month <= 12
  {
    if month == 2 then if IsLeap(year) then 29 else 28
    else if month == 4 || month == 6 || month == 9 || month == 11 then 30
    else 31
  }

  /** Days of the first `months` months of a year. */
  function DaysBefore(months: nat, year: nat): nat
    requires months <= 12
  {
    if months == 0 then 0 else DaysBefore(months - 1, year) + MonthDays(months, year)
  }

  /** secs_of_month: the fall-through switch, which adds the months from `months` down. */
  method SecsOfMonth(months: int, year: int) returns (secs: word)
    requires year >= -2000
    ensures secs == Wrap(if 1 <= months <= 11 then DaysBefore(months, 2000 + year) * DAY else 0)
  {
    var y, days := year + 2000, 0;
    if 1 <= months <= 11 {
      if months >= 11 { days := days + 30; }
      if months >= 10 { days := days + 31; }
      if months >= 9 { days := days + 30; }
      if months >= 8 { days := days + 31; }
      if months >= 7 { days := days + 31; }
      if months >= 6 { days := days + 30; }
      if months >= 5 { days := days + 31; }
      if months >= 4 { days := days + 30; }
      if months >= 3 { days := days + 31; }
      if months >= 2 {
        days := days + 28;
        if y % 4 == 0 && (y % 100 != 0 || y % 400 == 0) { days := days + 1; }
      }
      days := days + 31;
      Unroll(months, y);
    }
    return Wrap(days * DAY);
  }

  lemma Unroll(months: nat, year: nat)
    requires 1 <= months <= 11
    ensures DaysBefore(months, year) == DaysBefore(1, year)
      + (if months >= 2 then MonthDays(2, year) else 0) + (if months >= 3 then 31 else 0)
      + (if months >= 4 then 30 else 0) + (if months >= 5 then 31 else 0) + (if months >= 6 then 30 else 0)
      + (if months >= 7 then 31 else 0) + (if months >= 8 then 31 else 0) + (if months >= 9 then 30 else 0)
      + (if months >= 10 then 31 else 0) + (if months >= 11 then 30 else 0)
  {
    if months > 1 { Unroll(months - 1, year); }
  }

  datatype Date = Date(year: nat, month: nat, day: nat, hour: nat, minute: nat, second: nat)

  predicate ValidDate(t: Date) {
    && 1970 <= t.year && 1 <= t.month <= 12 && 1 <= t.day <= MonthDays(t.month, t.year)
    && t.hour < 24 && t.minute < 60 && t.second < 60
  }

  /** Seconds since the Epoch, by the standard. */
  function Epoch(t: Date): int
    requires ValidDate(t)
  {
    t.second + 60 * t.minute + 3600 * t.hour
      + DAY * (DaysBefore(t.month - 1, t.year) + t.day - 1)
      + DAY * PosixDays(t.year)
  }

  // ---------------------------------------------------------------- the calendar by itself

  predicate Leap(year: nat) { (year % 4 == 0 && year % 100 != 0) || year % 400 == 0 }

  /** The last day of each month. */
  function LastDay(month: nat, year: nat): nat
    requires 1 <= month <= 12
  {
    [31, if Leap(year) then 29 else 28, 31, 30, 31, 30, 31, 31, 30, 31, 30, 31][month - 1]
  }

  /** The days of a year before its month `month`. */
  function DayOfYear(month: nat, year: nat): nat
    requires 1 <= month <= 12
  {
    [0, 31, 59, 90, 120, 151, 181, 212, 243, 273, 304, 334][month - 1] + if month > 2 && Leap(year) then 1 else 0
  }

  lemma MonthTable(month: nat, year: nat)
    requires 1 <= month <= 12
    ensures MonthDays(month, year) == LastDay(month, year) && (IsLeap(year) <==> Leap(year))
    ensures month < 12 ==> DayOfYear(month + 1, year) == DayOfYear(month, year) + LastDay(month, year)
    ensures DayOfYear(12, year) + 31 == if Leap(year) then 366 else 365
  {
    Centuries(year);
  }

  /** The months before each month, and all twelve: the cumulative day numbers, and the length of the year. */
  lemma {:induction false} MonthsMakeYear(month: nat, year: nat)
    requires 1 <= month <= 12
    ensures DaysBefore(month - 1, year) == DayOfYear(month, year)
    ensures DaysBefore(12, year) == YearDays(year) == if Leap(year) then 366 else 365
    decreases month
  {
    hide LastDay, DayOfYear, MonthDays;
    FirstMonth(year);
    MonthsBefore(month, year);
    MonthsBefore(12, year);
    MonthTable(12, year);
    DecemberDays(year);
    assert DaysBefore(12, year) == DaysBefore(11, year) + MonthDays(12, year);
  }

  lemma FirstMonth(year: nat)
    ensures DayOfYear(1, year) == 0
  {
  }

  lemma DecemberDays(year: nat)
    ensures MonthDays(12, year) == 31
  {
  }

  lemma {:induction false} MonthsBefore(month: nat, year: nat)
    requires 1 <= month <= 12
    ensures DaysBefore(month - 1, year) == DayOfYear(month, year)
    decreases month
  {
    hide LastDay, DayOfYear, MonthDays;
    if month == 1 {
      FirstMonth(year);
    } else {
      MonthsBefore(month - 1, year);
      MonthTable(month - 1, year);
    }
  }

  /** The same time on the next day. */
  function NextDay(t: Date): Date
    requires 1 <= t.month <= 12
  {
    if t.day < LastDay(t.month, t.year) then t.(day := t.day + 1)
    else if t.month < 12 then t.(day := 1, month := t.month + 1)
    else t.(day := 1, month := 1, year := t.year + 1)
  }

  /** From each date to the next, across the ends of months and years, is 86400 seconds. */
  lemma {:induction false} DayByDay(t: Date)
    requires ValidDate(t)
    ensures ValidDate(NextDay(t)) && Epoch(NextDay(t)) == Epoch(t) + 86400
  {
    hide LastDay, DayOfYear, MonthDays, PosixDays, DaysBefore;
    var u := NextDay(t);
    MonthTable(t.month, t.year);
    MonthLength(u.month, u.year);
    MonthTable(u.month, u.year);
    MonthsMakeYear(t.month, t.year);
    MonthsMakeYear(u.month, u.year);
    FirstMonth(u.year);
    if u.year != t.year {
      LeapStep(t.year);
      DecemberDays(t.year);
      MonthTable(12, t.year);
    }
  }

  lemma MonthLength(month: nat, year: nat)
    requires 1 <= month <= 12
    ensures LastDay(month, year) >= 28
  {
  }

  /** The Epoch itself, and the standard's formula with tm_year = year - 1900 and tm_yday from the table. */
  lemma {:induction false} EpochFormula(t: Date)
    requires ValidDate(t)
    ensures Epoch(Date(1970, 1, 1, 0, 0, 0)) == 0
    ensures var year, yday := t.year - 1900, DayOfYear(t.month, t.year) + t.day - 1;
      Epoch(t) == t.second + t.minute * 60 + t.hour * 3600 + yday * 86400 + (year - 70) * 31536000
        + (year - 69) / 4 * 86400 - (year - 1) / 100 * 86400 + (year + 299) / 400 * 86400
  {
    hide DayOfYear, DaysBefore;
    NoMonths(1970);
    MonthsMakeYear(t.month, t.year);
    var a, b, c := (t.year - 1969) / 4, (t.year - 1901) / 100, (t.year - 1601) / 400;
    assert PosixDays(t.year) == 365 * (t.year - 1970) + a - b + c;
  }

  /** gettimeofday for a decoded date: the standard's value, modulo the width of tv_sec. */
  method GetTimeOfDay(t: Date) returns (secs: word)
    requires ValidDate(t)
    ensures secs == Wrap(Epoch(t))
    ensures 2000 <= t.year <= 2099 ==> secs as int == Epoch(t)
  {
    hide PosixDays, DaysBefore, DaysThrough, Wrap;
    var years := SecsOfYears(t.year - 2000 - 1);
    var months := SecsOfMonth(t.month - 1, t.year - 2000);
    DaysClosedForm(t.year);
    secs := Wrap(years as int + months as int + (t.day - 1) * DAY + t.hour * 3600 + t.minute * 60 + t.second);
    WrapSum(DAY * PosixDays(t.year), DaysBefore(t.month - 1, t.year) * DAY,
            (t.day - 1) * DAY + t.hour * 3600 + t.minute * 60 + t.second);
    NoMonths(t.year);
    if 2000 <= t.year <= 2099 { EpochBound(t); WrapSmall(Epoch(t)); }
  }

  lemma NoMonths(year: nat)
    ensures DaysBefore(0, year) == 0
  {
  }

  lemma WrapSmall(x: int)
    requires 0 <= x < TWO32
    ensures Wrap(x) as int == x
  {
  }

  lemma WrapSum(a: int, b: int, c: int)
    ensures Wrap(Wrap(a) as int + Wrap(b) as int + c) == Wrap(a + b + c)
  {
  }

  /** Dates of this century fit 32 bits. */
  lemma EpochBound(t: Date)
    requires ValidDate(t) && 2000 <= t.year <= 2099
    ensures 0 <= Epoch(t) < TWO32
  {
    var y := t.year;
    assert (y - 1969) / 4 <= 32 && (y - 1901) / 100 >= 0 && (y - 1601) / 400 <= 1;
    assert PosixDays(y) <= 365 * 129 + 33;
    MonthBound(t.month - 1, y);
    assert PosixDays(y) >= 0;
  }

  lemma MonthBound(months: nat, year: nat)
    requires months <= 12
    ensures 0 <= DaysBefore(months, year) <= 31 * months
  {
  }
}
