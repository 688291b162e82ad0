/** Civil dates and Unix time (time/time.c) against "Seconds Since the Epoch", section 4.16 of the
    POSIX.1-2017 Base Definitions. */
module Clock {

  /** The six byte-sized fields; `year` counts from 1900. */
  datatype Date = Date(sec: int, min: int, hour: int, day: int, month: int, year: int)

  // ---------------------------------------------------------------- the calendar

  predicate Leap(y: int) {
    y % 4 == 0 && (y % 100 != 0 || y % 400 == 0)
  }

  function MonthLen(month: int, leap: bool): int {
    if month == 2 then (if leap then 29 else 28)
    else if month == 4 || month == 6 || month == 9 || month == 11 then 30
    else 31
  }

  /** Days of the year before the first of `month`. */
  function Before(month: int, leap: bool): int {
    if month <= 1 then 0 else Before(month - 1, leap) + MonthLen(month - 1, leap)
  }

  predicate Valid(d: Date) {
    && 0 <= d.sec < 60 && 0 <= d.min < 60 && 0 <= d.hour < 24
    && 70 <= d.year < 256 && 1 <= d.month <= 12 && 1 <= d.day <= MonthLen(d.month, Leap(1900 + d.year))
  }

  function YearDay(d: Date): int {
    Before(d.month, Leap(1900 + d.year)) + d.day - 1
  }

  /** Days from 1 January 1970 to 1 January of 1900 + `year`. */
  function YearStart(year: int): int {
    365 * (year - 70) + (year - 69) / 4 - (year - 1) / 100 + (year + 299) / 400
  }

  /** The POSIX formula. */
  function Posix(d: Date): int {
    d.sec + 60 * d.min + 3600 * d.hour + 86400 * (YearDay(d) + YearStart(d.year))
  }

  lemma YearLength(year: int)
    requires 70 <= year < 256
    ensures YearStart(year + 1) == YearStart(year) + if Leap(1900 + year) then 366 else 365
  {
    assert (year - 68) / 4 - (year - 69) / 4 == if year % 4 == 0 then 1 else 0;
    assert year / 100 - (year - 1) / 100 == if year % 100 == 0 then 1 else 0;
    assert (year + 300) / 400 - (year + 299) / 400 == if year == 100 then 1 else 0;
  }

  // ---------------------------------------------------------------- to Unix time

  const DAY := 86400

  /** What `convert_to_std_time` computes. Its rule for the current year is applied to years since 1900,
      so it takes 2000 for a common year; the years before follow the calendar rule. */
  function Std(d: Date): int {
    d.sec + 60 * d.min + 3600 * d.hour + DAY * (Before(d.month, Leap(d.year)) + d.day - 1 + YearStart(d.year))
  }

  /** `convert_to_std_time`: month offsets, then a loop over the years since 1970. */
  method ConvertToStdTime(d: Date) returns (tr: int)
    requires 70 <= d.year < 256 && 1 <= d.month <= 12
    ensures tr == Std(d)
  {
    tr := d.sec + 60 * d.min + 3600 * d.hour + DAY * (d.day - 1);
    var years := 1900 + d.year - 1;
    var month := d.month - 1;
    if month == 11 { tr := tr + 30 * DAY; }
    if month >= 10 { tr := tr + 31 * DAY; }
    if month >= 9 { tr := tr + 30 * DAY; }
    if month >= 8 { tr := tr + 31 * DAY; }
    if month >= 7 { tr := tr + 31 * DAY; }
    if month >= 6 { tr := tr + 30 * DAY; }
    if month >= 5 { tr := tr + 31 * DAY; }
    if month >= 4 { tr := tr + 30 * DAY; }
    if month >= 3 { tr := tr + 31 * DAY; }
    if month >= 2 {
      tr := tr + 28 * DAY;
      if d.year % 4 == 0 && (d.year % 100 != 0 || d.year % 400 == 0) { tr := tr + DAY; }
    }
    if month >= 1 { tr := tr + 31 * DAY; }
    BeforeTable(d.month, Leap(d.year));
    ghost var inYear := tr;
    while years > 1969
      invariant 1969 <= years <= 1899 + d.year
      invariant tr == inYear + DAY * (YearStart(d.year) - YearStart(years - 1899))
    {
      YearLength(years - 1900);
      tr := tr + 365 * DAY;
      if years % 4 == 0 {
        if years % 100 == 0 {
          if years % 400 == 0 { tr := tr + DAY; }
        } else {
          tr := tr + DAY;
        }
      }
      years := years - 1;
    }
    assert YearStart(70) == 0;
  }

  /** The month offsets written out in the switch of the conversion. */
  lemma BeforeTable(month: int, leap: bool)
    requires 1 <= month <= 12
    ensures Before(month, leap) ==
            (if month > 1 then 31 else 0) + (if month > 2 then (if leap then 29 else 28) else 0)
            + (if month > 3 then 31 else 0) + (if month > 4 then 30 else 0) + (if month > 5 then 31 else 0)
            + (if month > 6 then 30 else 0) + (if month > 7 then 31 else 0) + (if month > 8 then 31 else 0)
            + (if month > 9 then 30 else 0) + (if month > 10 then 31 else 0) + (if month > 11 then 30 else 0)
  {
    if month > 1 {
      BeforeTable(month - 1, leap);
    }
  }

  /** The conversion follows POSIX exactly outside March to December 2000, where it is a day short. */
  lemma StdIsPosixIff(d: Date)
    requires Valid(d)
    ensures Std(d) == Posix(d) <==> !(d.year == 100 && d.month >= 3)
    ensures d.year == 100 && d.month >= 3 ==> Std(d) == Posix(d) - DAY
  {
    var y := d.year;
    assert Leap(1900 + y) != Leap(y) <==> y == 100;
    BeforeTable(d.month, Leap(1900 + y));
    BeforeTable(d.month, Leap(y));
  }

  // ---------------------------------------------------------------- to a date

  lemma CycleStart(c: int, k: int)
    requires 17 <= c <= 34 && 0 <= k <= 3 && 70 <= 4 * c + k
    ensures YearStart(4 * c + k) == if k == 0 then 1461 * c - 25568 else 1461 * c + 365 * k - 25567
    ensures Leap(1900 + 4 * c + k) == (k == 0)
  {
    var year := 4 * c + k;
    assert 70 <= year < 140;
    assert (year - 69) / 4 == if k == 0 then c - 18 else c - 17;
    assert (year - 1) / 100 == (year + 299) / 400 by {
      assert year <= 100 || 100 < year;
    }
    assert Leap(1900 + year) == (k == 0) by {
      CommonCentury(1900 + year);
      assert year % 4 == k;
    }
  }

  /** Between 1970 and 2039 every fourth year is a leap year. */
  lemma CommonCentury(y: int)
    requires 1970 <= y < 2040
    ensures Leap(y) == (y % 4 == 0)
  {
    assert y % 100 == 0 ==> y == 2000;
  }

  /** The year and day of the year found from 1461-day cycles since a leap "1900". */
  lemma CycleYear(days: int, year: int, day: int)
    requires 0 <= days < 24856
    requires var c, r := (days + 25568) / 1461, (days + 25568) % 1461;
             if r > 365 then year == 4 * c + (r - 1) / 365 && day == (r - 1) % 365 else year == 4 * c && day == r
    ensures 70 <= year < 140 && days == YearStart(year) + day
    ensures 0 <= day < (if Leap(1900 + year) then 366 else 365) && Leap(1900 + year) == (year % 4 == 0)
  {
    hide YearStart, Leap;
    var c, r := (days + 25568) / 1461, (days + 25568) % 1461;
    assert days + 25568 == 1461 * c + r && 17 <= c <= 34;
    CycleStart(c, year - 4 * c);
  }

  /** Day `t` of a leap year, counting 29 February even in common years, as month and day. */
  lemma MonthOf(year: int, day: int, t: int, month: int, rest: int)
    requires 70 <= year < 140 && 0 <= day < (if Leap(1900 + year) then 366 else 365)
    requires t == if !Leap(1900 + year) && day >= 59 then day + 1 else day
    requires 1 <= month <= 12 && t == Before(month, true) + rest && 0 <= rest < MonthLen(month, true)
    ensures rest + 1 <= MonthLen(month, Leap(1900 + year)) && day == Before(month, Leap(1900 + year)) + rest
  {
    BeforeTable(month, true);
    BeforeTable(month, false);
  }

  lemma NextMonth(month: int)
    requires 1 <= month <= 12
    ensures Before(1, true) == 0 && Before(month + 1, true) == Before(month, true) + MonthLen(month, true)
    ensures MonthLen(month, true) == [31, 29, 31, 30, 31, 30, 31, 31, 30, 31, 30, 31][month - 1]
  {
  }

  /** The search cannot run past December. */
  lemma NoMonthAfter(month: int, t: int)
    requires 1 <= month <= 12 && Before(month, true) + MonthLen(month, true) <= t < 366
    ensures month < 12
  {
    BeforeTable(month, true);
  }

  /** `convert_to_readable_time`: for every 32-bit time from 1970 on, the date POSIX gives that time. */
  method ConvertToReadableTime(time: int) returns (d: Date)
    requires 0 <= time < 0x8000_0000
    ensures Valid(d) && Posix(d) == time
  {
    hide YearStart, Leap, Before, MonthLen;
    var monthdays := [31, 29, 31, 30, 31, 30, 31, 31, 30, 31, 30, 31];
    var t := time;
    var seconds := t % 60;
    t := t / 60;
    var minutes := t % 60;
    t := t / 60;
    var hour := t % 24;
    t := t / 24;
    ghost var days := t;
    assert time == seconds + 60 * minutes + 3600 * hour + DAY * days;
    t := t + 25568;
    var year := t / 1461 * 4;
    t := t % 1461;
    if t > 365 {
      year := year + (t - 1) / 365;
      t := (t - 1) % 365;
    }
    ghost var day := t;
    CycleYear(days, year, day);
    if year % 4 != 0 && t >= 59 {
      t := t + 1;
    }
    ghost var t0 := t;
    var month := 0;
    NextMonth(1);
    while t >= monthdays[month]
      invariant 0 <= month < 12 && 0 <= t && t0 == Before(month + 1, true) + t
      decreases 12 - month
    {
      NextMonth(month + 1);
      NoMonthAfter(month + 1, t0);
      t := t - monthdays[month];
      month := month + 1;
    }
    month := month + 1;
    NextMonth(month);
    MonthOf(year, day, t0, month, t);
    d := Date(seconds, minutes, hour, t + 1, month, year);
  }

  // ---------------------------------------------------------------- round trips

  const MARCH_2000 := 951868800    // 2000-03-01 00:00:00
  const YEAR_2001 := 978307200     // 2001-01-01 00:00:00

  lemma {:induction false} YearsGrow(a: int, b: int)
    requires 70 <= a < b < 256
    ensures YearStart(a) + (if Leap(1900 + a) then 366 else 365) <= YearStart(b)
    decreases b - a
  {
    YearLength(a);
    if a + 1 < b {
      YearsGrow(a + 1, b);
    }
  }

  lemma YearDayBounds(d: Date)
    requires Valid(d)
    ensures 0 <= YearDay(d) < if Leap(1900 + d.year) then 366 else 365
  {
    BeforeTable(d.month, Leap(1900 + d.year));
  }

  lemma MonthUnique(leap: bool, m: int, d: int, m': int, d': int)
    requires 1 <= m <= 12 && 1 <= d <= MonthLen(m, leap) && 1 <= m' <= 12 && 1 <= d' <= MonthLen(m', leap)
    requires Before(m, leap) + d == Before(m', leap) + d'
    ensures m == m' && d == d'
  {
    BeforeTable(m, leap);
    BeforeTable(m', leap);
  }

  /** Two valid dates with the same time are the same date. */
  lemma PosixInjective(d: Date, e: Date)
    requires Valid(d) && Valid(e) && Posix(d) == Posix(e)
    ensures d == e
  {
    YearDayBounds(d);
    YearDayBounds(e);
    SameClock(d, e);
    if d.year < e.year {
      YearsGrow(d.year, e.year);
    } else if e.year < d.year {
      YearsGrow(e.year, d.year);
    } else {
      MonthUnique(Leap(1900 + d.year), d.month, d.day, e.month, e.day);
    }
  }

  lemma SameClock(d: Date, e: Date)
    requires Valid(d) && Valid(e) && Posix(d) == Posix(e)
    ensures d.sec == e.sec && d.min == e.min && d.hour == e.hour
    ensures YearDay(d) + YearStart(d.year) == YearDay(e) + YearStart(e.year)
  {
    hide YearDay, YearStart, Leap, MonthLen;
    var a, b := d.sec + 60 * d.min + 3600 * d.hour, e.sec + 60 * e.min + 3600 * e.hour;
    assert 0 <= a < DAY && 0 <= b < DAY;
    assert a == b;
    assert d.hour == a / 3600 && e.hour == b / 3600;
  }

  /** Which times fall in March to December 2000. */
  lemma InMarchToDecember2000(d: Date)
    requires Valid(d)
    ensures d.year == 100 && d.month >= 3 <==> MARCH_2000 <= Posix(d) < YEAR_2001
  {
    YearDayBounds(d);
    BeforeTable(d.month, Leap(1900 + d.year));
    assert YearStart(100) == 10957 && YearStart(101) == 11323;
    if d.year < 100 {
      YearsGrow(d.year, 100);
    } else if d.year > 101 {
      YearsGrow(101, d.year);
    }
  }

  /** Time to date and back: the identity exactly outside March to December 2000. */
  method TimeRoundTrip(time: int) returns (back: int)
    requires 0 <= time < 0x8000_0000
    ensures back == time <==> !(MARCH_2000 <= time < YEAR_2001)
    ensures MARCH_2000 <= time < YEAR_2001 ==> back == time - DAY
  {
    var d := ConvertToReadableTime(time);
    back := ConvertToStdTime(d);
    StdIsPosixIff(d);
    InMarchToDecember2000(d);
  }

  /** Date to time and back: the identity exactly outside March to December 2000. */
  method DateRoundTrip(d: Date) returns (back: Date)
    requires Valid(d) && Posix(d) < 0x8000_0000
    ensures back == d <==> !(d.year == 100 && d.month >= 3)
  {
    var time := ConvertToStdTime(d);
    StdIsPosixIff(d);
    InMarchToDecember2000(d);
    PosixPositive(d);
    back := ConvertToReadableTime(time);
    if Posix(back) == Posix(d) {
      PosixInjective(back, d);
    }
  }

  lemma PosixPositive(d: Date)
    requires Valid(d)
    ensures 0 <= Posix(d)
  {
    YearDayBounds(d);
    assert YearStart(70) == 0;
    if 70 < d.year {
      YearsGrow(70, d.year);
    }
  }

  /** One concrete failure: noon of 1 March 2000 comes out as noon of 29 February. */
  lemma FirstOfMarch2000()
    ensures Std(Date(0, 0, 12, 1, 3, 100)) == Posix(Date(0, 0, 12, 29, 2, 100)) == 951825600
    ensures Posix(Date(0, 0, 12, 1, 3, 100)) == 951912000
  {
    BeforeTable(3, true);
    BeforeTable(3, false);
    BeforeTable(2, true);
  }
}
