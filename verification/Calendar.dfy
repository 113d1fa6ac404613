/** Seconds since the Unix epoch to Gregorian date and time, by counting off years and months. */
module Calendar {
  import opened Bits

  /** Leap years as in Appendix C of RFC 3339. */
  predicate IsLeap(year: nat) {
    (year % 4 == 0 && year % 100 != 0) || year % 400 == 0
  }

  function DaysInYear(year: nat): nat {
    if IsLeap(year) then 366 else 365
  }

  /** Month lengths as in section 5.7 of RFC 3339. */
  function DaysInMonth(year: nat, month: nat): nat
    requires 1 <= month <= 12
  {
    if month == 2 then (if IsLeap(year) then 29 else 28)
    else if month == 4 || month == 6 || month == 9 || month == 11 then 30
    else 31
  }

  datatype DateTime = DateTime(year: nat, month: nat, day: nat, hour: nat, minute: nat, second: nat) {
    /** A date of the Gregorian calendar not before 1970, and a time of day. */
    predicate Valid() {
      && 1970 <= year && 1 <= month <= 12 && 1 <= day <= DaysInMonth(year, month)
      && hour < 24 && minute < 60 && second < 60
    }
  }

  // ----- counting days -----

  /** Days from the first of January 1970 to the first of January of the year. */
  function YearStart(year: nat): nat
    requires 1970 <= year
  {
    if year == 1970 then 0 else YearStart(year - 1) + DaysInYear(year - 1)
  }

  /** Days from the first of January to the first of the month. */
  function MonthStart(year: nat, month: nat): nat
    requires 1 <= month <= 13
  {
    if month == 1 then 0 else MonthStart(year, month - 1) + DaysInMonth(year, month - 1)
  }

  /** The leap years counted in closed form: every fourth year, less the centuries, plus every fourth century. */
  lemma {:induction false} YearStartClosed(year: nat)
    requires 1970 <= year
    ensures var y := year - 1;
            YearStart(year) == 365 * (year - 1970) + (y / 4 - y / 100 + y / 400) - (1969 / 4 - 1969 / 100 + 1969 / 400)
  {
    if year > 1970 {
      YearStartClosed(year - 1);
      LeapStep(year - 1);
    }
  }

  /** Passing year y adds one to the count of leap years exactly if y is one. */
  lemma LeapStep(y: nat)
    requires y > 0
    ensures (y / 4 - y / 100 + y / 400) - ((y - 1) / 4 - (y - 1) / 100 + (y - 1) / 400) == if IsLeap(y) then 1 else 0
  {
    Step(y, 4);
    Step(y, 100);
    Step(y, 400);
    Nested(y);
  }

  lemma Nested(y: nat)
    ensures (y % 400 == 0 ==> y % 100 == 0) && (y % 100 == 0 ==> y % 4 == 0)
  {
    if y % 400 == 0 {
      DivUnique(y, 100, 4 * (y / 400), 0);
    }
    if y % 100 == 0 {
      DivUnique(y, 4, 25 * (y / 100), 0);
    }
  }

  lemma Step(y: nat, d: nat)
    requires y > 0 && (d == 4 || d == 100 || d == 400)
    ensures y / d == (y - 1) / d + if y % d == 0 then 1 else 0
  {
  }

  lemma {:induction false} YearLength(year: nat)
    ensures MonthStart(year, 13) == DaysInYear(year)
  {
    assert MonthStart(year, 2) == 31;
    assert MonthStart(year, 3) == 31 + DaysInMonth(year, 2);
    assert MonthStart(year, 5) == 31 + DaysInMonth(year, 2) + 61;
    assert MonthStart(year, 7) == 31 + DaysInMonth(year, 2) + 122;
    assert MonthStart(year, 9) == 31 + DaysInMonth(year, 2) + 184;
    assert MonthStart(year, 11) == 31 + DaysInMonth(year, 2) + 245;
  }

  /** Seconds from the epoch to a date and time. */
  function Seconds(t: DateTime): nat
    requires t.Valid()
  {
    (((YearStart(t.year) + MonthStart(t.year, t.month) + t.day - 1) * 24 + t.hour) * 60 + t.minute) * 60 + t.second
  }

  /** The days before a month in closed form: months of 30.6 days, and a short February. */
  lemma {:induction false} MonthStartClosed(year: nat, month: nat)
    requires 1 <= month <= 13
    ensures MonthStart(year, month)
         == (367 * month - 362) / 12 - (if month <= 2 then 0 else if IsLeap(year) then 1 else 2)
  {
    if month > 1 {
      MonthStartClosed(year, month - 1);
    }
  }

  /** The days from the epoch to a date, in closed form. */
  function DayNumber(year: nat, month: nat, day: nat): int
    requires year > 0
  {
    var y := year - 1;
    365 * (year - 1970) + (y / 4 - y / 100 + y / 400 - 477)
    + (367 * month - 362) / 12 - (if month <= 2 then 0 else if IsLeap(year) then 1 else 2) + day - 1
  }

  lemma SecondsClosed(t: DateTime)
    requires t.Valid()
    ensures Seconds(t) == 86400 * DayNumber(t.year, t.month, t.day) + 3600 * t.hour + 60 * t.minute + t.second
  {
    hide YearStart, MonthStart, IsLeap, DayNumber;
    DayNumberIs(t.year, t.month, t.day);
  }

  lemma DayNumberIs(year: nat, month: nat, day: nat)
    requires 1970 <= year && 1 <= month <= 12
    ensures DayNumber(year, month, day) == YearStart(year) + MonthStart(year, month) + day - 1
  {
    YearStartClosed(year);
    MonthStartClosed(year, month);
    hide YearStart, MonthStart, IsLeap;
  }

  // ----- the decomposition -----

  /** The loop over the years: the year a day falls in, and the days left over. */
  method FindYear(days: nat) returns (year: nat, remaining: nat)
    ensures 1970 <= year && YearStart(year) + remaining == days && remaining < DaysInYear(year)
  {
    year, remaining := 1970, days;
    while true
      invariant 1970 <= year && YearStart(year) + remaining == days
      decreases remaining
    {
      var daysInYear := if IsLeap(year) then 366 else 365;
      if remaining < daysInYear {
        break;
      }
      remaining := remaining - daysInYear;
      year := year + 1;
    }
  }

  /** The loop over the months of a year; it stops at one of the twelve. */
  method FindMonth(year: nat, dayOfYear: nat) returns (month: nat, remaining: nat)
    requires dayOfYear < DaysInYear(year)
    ensures 1 <= month <= 12 && MonthStart(year, month) + remaining == dayOfYear
    ensures remaining < DaysInMonth(year, month)
  {
    var monthDays := [31, if IsLeap(year) then 29 else 28, 31, 30, 31, 30, 31, 31, 30, 31, 30, 31];
    month, remaining := 1, dayOfYear;
    YearLength(year);
    for i := 0 to 12
      invariant month == i + 1 && MonthStart(year, month) + remaining == dayOfYear
    {
      assert monthDays[i] == DaysInMonth(year, i + 1);
      if remaining < monthDays[i] {
        break;
      }
      remaining := remaining - monthDays[i];
      month := month + 1;
    }
  }

  /** `unix_secs_to_datetime`: a valid date and time that is that many seconds from the epoch. */
  method UnixSecsToDatetime(secs: nat) returns (t: DateTime)
    ensures t.Valid() && Seconds(t) == secs
  {
    var second := secs % 60;
    var minutes := secs / 60;
    var minute := minutes % 60;
    var hours := minutes / 60;
    var hour := hours % 24;
    var days := hours / 24;
    var year, dayOfYear := FindYear(days);
    var month, remaining := FindMonth(year, dayOfYear);
    t := DateTime(year, month, remaining + 1, hour, minute, second);
  }

  // ----- one date and time for each second -----

  /** The order of dates and times: by year, month, day, hour, minute and second. */
  predicate Before(a: DateTime, b: DateTime) {
    a.year < b.year || (a.year == b.year &&
    (a.month < b.month || (a.month == b.month &&
    (a.day < b.day || (a.day == b.day &&
    (a.hour < b.hour || (a.hour == b.hour &&
    (a.minute < b.minute || (a.minute == b.minute && a.second < b.second)))))))))
  }

  lemma {:induction false} YearsApart(a: nat, b: nat)
    requires 1970 <= a < b
    ensures YearStart(a) + DaysInYear(a) <= YearStart(b)
  {
    if a < b - 1 {
      YearsApart(a, b - 1);
    }
  }

  lemma {:induction false} MonthsApart(year: nat, a: nat, b: nat)
    requires 1 <= a < b <= 13
    ensures MonthStart(year, a) + DaysInMonth(year, a) <= MonthStart(year, b)
  {
    if a < b - 1 {
      MonthsApart(year, a, b - 1);
    }
  }

  /** The days of the year are those before the month plus the day of the month. */
  function DayOfYear(t: DateTime): nat
    requires t.Valid()
  {
    MonthStart(t.year, t.month) + t.day - 1
  }

  lemma DayOfYearInYear(t: DateTime)
    requires t.Valid()
    ensures DayOfYear(t) < DaysInYear(t.year)
  {
    hide DaysInYear, DaysInMonth;
    YearLength(t.year);
    MonthsApart(t.year, t.month, 13);
  }

  lemma EarlierDay(a: DateTime, b: DateTime)
    requires a.Valid() && b.Valid()
    requires a.year < b.year || (a.year == b.year && (a.month < b.month || (a.month == b.month && a.day < b.day)))
    ensures YearStart(a.year) + DayOfYear(a) < YearStart(b.year) + DayOfYear(b)
  {
    hide YearStart, MonthStart;
    DayOfYearInYear(a);
    if a.year < b.year {
      YearsApart(a.year, b.year);
    } else if a.month < b.month {
      MonthsApart(a.year, a.month, b.month);
    }
  }

  /** Later dates and times are more seconds from the epoch. */
  lemma SecondsMonotone(a: DateTime, b: DateTime)
    requires a.Valid() && b.Valid() && Before(a, b)
    ensures Seconds(a) < Seconds(b)
  {
    hide YearStart, MonthStart, DaysInMonth;
    if a.year == b.year && a.month == b.month && a.day == b.day {
    } else {
      EarlierDay(a, b);
    }
  }

  /** The decomposition is the only one, and it keeps the order: two seconds compare as the dates and times found for
      them. */
  lemma Order(a: DateTime, b: DateTime)
    requires a.Valid() && b.Valid()
    ensures Seconds(a) < Seconds(b) <==> Before(a, b)
    ensures Seconds(a) == Seconds(b) <==> a == b
  {
    hide Seconds;
    if Before(a, b) {
      SecondsMonotone(a, b);
    } else if Before(b, a) {
      SecondsMonotone(b, a);
    } else {
      assert a == b;
    }
  }
}
