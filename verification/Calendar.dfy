/**
 The two hand-written conversions from a day count since 1970-01-01 to a Gregorian
 date, against the day number of a date.
 */
module Calendar {
  import opened Arithmetic

  predicate IsLeapYear(y: nat) {
    (y % 4 == 0 && y % 100 != 0) || y % 400 == 0
  }

  function DaysInYear(y: nat): (n: nat) {
    if IsLeapYear(y) then 366 else 365
  }

  function MonthDays(y: nat): (ms: seq<nat>)
    ensures |ms| == 12
  {
    [31, if IsLeapYear(y) then 29 else 28, 31, 30, 31, 30, 31, 31, 30, 31, 30, 31]
  }

  datatype Date = Date(year: nat, month: nat, day: nat)

  predicate ValidDate(d: Date) {
    d.year >= 1970 && 1 <= d.month <= 12 && 1 <= d.day <= MonthDays(d.year)[d.month - 1]
  }

  // ---------------------------------------------------------------- day numbers

  function Sum(xs: seq<nat>): (n: nat) {
    if xs == [] then 0 else Sum(xs[..|xs| - 1]) + xs[|xs| - 1]
  }

  /** Days from 1970-01-01 to the first of January of `y`. */
  function DaysBeforeYear(y: nat): (n: nat)
    requires y >= 1970
  {
    if y == 1970 then 0 else DaysBeforeYear(y - 1) + DaysInYear(y - 1)
  }

  function DaysBeforeMonth(y: nat, m: nat): (n: nat)
    requires 1 <= m <= 13
  {
    Sum(MonthDays(y)[..m - 1])
  }

  /** The number of days from 1970-01-01 to `d`. */
  function DayNumber(d: Date): (n: nat)
    requires ValidDate(d)
  {
    DaysBeforeYear(d.year) + DaysBeforeMonth(d.year, d.month) + (d.day - 1)
  }

  /** Leap years before `y`, counted by the Gregorian rule. */
  function LeapsBefore(y: nat): (n: int)
    requires y > 0
  {
    (y - 1) / 4 - (y - 1) / 100 + (y - 1) / 400
  }

  lemma LeapCounted(y: nat)
    requires y > 0
    ensures LeapsBefore(y + 1) == LeapsBefore(y) + if IsLeapYear(y) then 1 else 0
  {
    DivStep(y, 4);
    DivStep(y, 100);
    DivStep(y, 400);
    ModOfMod(y, 100, 4);
    ModOfMod(y, 400, 100);
  }

  /** The year loop counts what the closed Gregorian formula counts. */
  lemma {:induction false} YearsClosedForm(y: nat)
    requires y >= 1970
    ensures DaysBeforeYear(y) == 365 * (y - 1970) + LeapsBefore(y) - LeapsBefore(1970)
  {
    if y > 1970 {
      YearsClosedForm(y - 1);
      LeapCounted(y - 1);
    }
  }

  lemma SumSnoc(xs: seq<nat>, i: nat)
    requires i < |xs|
    ensures Sum(xs[..i + 1]) == Sum(xs[..i]) + xs[i]
  {
    assert xs[..i + 1][..i] == xs[..i];
  }

  /** The months fill the year. */
  lemma MonthsFillYear(y: nat)
    ensures DaysBeforeMonth(y, 13) == DaysInYear(y)
  {
    var ms := MonthDays(y);
    SumSnoc(ms, 0); SumSnoc(ms, 1); SumSnoc(ms, 2); SumSnoc(ms, 3); SumSnoc(ms, 4); SumSnoc(ms, 5);
    SumSnoc(ms, 6); SumSnoc(ms, 7); SumSnoc(ms, 8); SumSnoc(ms, 9); SumSnoc(ms, 10); SumSnoc(ms, 11);
  }

  lemma {:induction false} YearsGrow(y: nat, z: nat)
    requires 1970 <= y < z
    ensures DaysBeforeYear(y) + DaysInYear(y) <= DaysBeforeYear(z)
    decreases z
  {
    if y < z - 1 {
      YearsGrow(y, z - 1);
    }
  }

  lemma {:induction false} MonthsGrow(y: nat, m: nat, k: nat)
    requires 1 <= m < k <= 13
    ensures DaysBeforeMonth(y, m) + MonthDays(y)[m - 1] <= DaysBeforeMonth(y, k)
    decreases k
  {
    hide MonthDays;
    SumSnoc(MonthDays(y), k - 2);
    if m < k - 1 {
      MonthsGrow(y, m, k - 1);
    }
  }

  predicate Earlier(a: Date, b: Date) {
    || a.year < b.year
    || (a.year == b.year && a.month < b.month)
    || (a.year == b.year && a.month == b.month && a.day < b.day)
  }

  lemma DayWithinYear(d: Date)
    requires ValidDate(d)
    ensures DaysBeforeMonth(d.year, d.month) + (d.day - 1) < DaysInYear(d.year)
  {
    hide MonthDays, Sum;
    MonthsFillYear(d.year);
    MonthsGrow(d.year, d.month, 13);
  }

  /** Later dates have larger day numbers. */
  lemma DayNumberMonotone(a: Date, b: Date)
    requires ValidDate(a) && ValidDate(b) && Earlier(a, b)
    ensures DayNumber(a) < DayNumber(b)
  {
    hide MonthDays, Sum, IsLeapYear, DaysBeforeYear;
    if a.year < b.year {
      DayWithinYear(a);
      YearsGrow(a.year, b.year);
    } else if a.month < b.month {
      MonthsGrow(a.year, a.month, b.month);
    }
  }

  /** The conversion keeps the order: a later day number is a later date. */
  lemma LaterDay(a: Date, b: Date)
    requires ValidDate(a) && ValidDate(b)
    ensures DayNumber(a) < DayNumber(b) <==> Earlier(a, b)
  {
    hide DayNumber;
    if Earlier(a, b) {
      DayNumberMonotone(a, b);
    } else if a != b {
      DayNumberMonotone(b, a);
    }
  }

  /** A day number determines its date. */
  lemma DateUnique(a: Date, b: Date)
    requires ValidDate(a) && ValidDate(b) && DayNumber(a) == DayNumber(b)
    ensures a == b
  {
    hide DayNumber;
    if Earlier(a, b) {
      DayNumberMonotone(a, b);
    } else if Earlier(b, a) {
      DayNumberMonotone(b, a);
    }
  }

  // ---------------------------------------------------------------- the first conversion

  /** `days_to_ymd`: the valid date whose day number is `days`. */
  method DaysToYmd(days: nat) returns (date: Date)
    ensures ValidDate(date) && DayNumber(date) == days
  {
    hide IsLeapYear, Sum;
    var y: nat, remaining: nat := 1970, days;
    while true
      invariant y >= 1970 && remaining + DaysBeforeYear(y) == days
      decreases remaining
    {
      var daysInYear := if IsLeapYear(y) then 366 else 365;
      if remaining < daysInYear {
        break;
      }
      remaining := remaining - daysInYear;
      y := y + 1;
    }
    var monthDays := MonthDays(y);
    var m := 0;
    MonthsFillYear(y);
    ghost var inYear := remaining;
    NoMonthsYet(y);
    for i := 0 to 12
      invariant m == 0 && 0 <= remaining && remaining + Sum(monthDays[..i]) == inYear
    {
      if remaining < monthDays[i] {
        m := i + 1;
        break;
      }
      SumSnoc(monthDays, i);
      remaining := remaining - monthDays[i];
    }
    date := Date(y, m, remaining + 1);
  }

  lemma NoMonthsYet(y: nat)
    ensures Sum(MonthDays(y)[..0]) == 0
  {
  }

  /** Dates and day counts correspond one to one: converting a day number gives the date back. */
  method RoundTrip(date: Date) returns (back: Date)
    requires ValidDate(date)
    ensures back == date
  {
    hide DayNumber;
    var days := DaysBeforeYear(date.year) + DaysBeforeMonth(date.year, date.month) + (date.day - 1);
    assert days == DayNumber(date) by { NumberOf(date); }
    back := DaysToYmd(days);
    DateUnique(back, date);
  }

  lemma NumberOf(d: Date)
    requires ValidDate(d)
    ensures DayNumber(d) == DaysBeforeYear(d.year) + DaysBeforeMonth(d.year, d.month) + (d.day - 1)
  {
  }

  // ---------------------------------------------------------------- time stamps

  datatype Stamp = Stamp(date: Date, hours: nat, minutes: nat, seconds: nat)

  /** The stamp of a number of seconds since the epoch. */
  ghost predicate IsStampOf(s: Stamp, secs: nat) {
    && ValidDate(s.date) && s.hours < 24 && s.minutes < 60 && s.seconds < 60
    && secs == DayNumber(s.date) * 86400 + s.hours * 3600 + s.minutes * 60 + s.seconds
  }

  /** Every field of a stamp is determined by the seconds. */
  lemma StampFields(s: Stamp, secs: nat)
    requires IsStampOf(s, secs)
    ensures DayNumber(s.date) == secs / 86400 && s.hours == secs % 86400 / 3600
    ensures s.minutes == secs % 86400 % 3600 / 60 && s.seconds == secs % 86400 % 3600 % 60
  {
    hide DayNumber, ValidDate;
    var inHour := s.minutes * 60 + s.seconds;
    DivModUnique(86400, secs, DayNumber(s.date), s.hours * 3600 + inHour);
    DivModUnique(3600, s.hours * 3600 + inHour, s.hours, inHour);
    DivModUnique(60, inHour, s.minutes, s.seconds);
  }

  lemma StampUnique(a: Stamp, b: Stamp, secs: nat)
    requires IsStampOf(a, secs) && IsStampOf(b, secs)
    ensures a == b
  {
    hide DayNumber, ValidDate;
    StampFields(a, secs);
    StampFields(b, secs);
    DateUnique(a.date, b.date);
  }

  lemma TimeOfDay(secs: nat)
    ensures var t := secs % 86400;
            && t / 3600 < 24 && t % 3600 / 60 < 60
            && secs == secs / 86400 * 86400 + t / 3600 * 3600 + t % 3600 / 60 * 60 + t % 60
  {
    var t := secs % 86400;
    DivMod(secs, 86400);
    DivMod(t, 3600);
    DivMod(t % 3600, 60);
    ModOfMod(t, 3600, 60);
  }

  /** `system_time_to_rfc3339`, up to its formatting. */
  method SystemTimeFields(secs: nat) returns (s: Stamp)
    ensures IsStampOf(s, secs)
  {
    hide DayNumber;
    var timeOfDay := secs % 86400;
    var date := DaysToYmd(secs / 86400);
    TimeOfDay(secs);
    s := Stamp(date, timeOfDay / 3600, timeOfDay % 3600 / 60, timeOfDay % 60);
  }

  /** `format_epoch_secs`, up to its formatting: the same conversion written out a second time. */
  method EpochFields(secs: nat) returns (s: Stamp)
    ensures IsStampOf(s, secs)
  {
    hide IsLeapYear, Sum;
    var days := secs / 86400;
    var timeOfDay := secs % 86400;
    var hours, minutes, seconds := timeOfDay / 3600, timeOfDay % 3600 / 60, timeOfDay % 60;
    var y: nat, remaining: nat := 1970, days;
    while remaining >= (if IsLeapYear(y) then 366 else 365)
      invariant y >= 1970 && remaining + DaysBeforeYear(y) == days
      decreases remaining
    {
      remaining := remaining - if IsLeapYear(y) then 366 else 365;
      y := y + 1;
    }
    var monthDays := MonthDays(y);
    var m := 0;
    ghost var inYear := remaining;
    MonthsFillYear(y);
    NoMonthsYet(y);
    for i := 0 to 12
      invariant m == 0 && 0 <= remaining && remaining + Sum(monthDays[..i]) == inYear
    {
      if remaining < monthDays[i] {
        m := i + 1;
        break;
      }
      SumSnoc(monthDays, i);
      remaining := remaining - monthDays[i];
    }
    s := Stamp(Date(y, m, remaining + 1), hours, minutes, seconds);
    TimeOfDay(secs);
  }

  /** The two conversions agree on every input. */
  method ConversionsAgree(secs: nat) returns (a: Stamp, b: Stamp)
    ensures a == b && IsStampOf(a, secs)
  {
    a := SystemTimeFields(secs);
    b := EpochFields(secs);
    StampUnique(a, b, secs);
  }
}
