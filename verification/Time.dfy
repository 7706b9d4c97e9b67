/** time.c: calendar dates as days and seconds since 1970. */
module Time {
  import opened Powers

  /** Division as C does it, toward zero. */
  function Div(a: int, b: int): int
    requires b > 0
  {
    if a >= 0 then a / b else -((-a) / b)
  }

  /** is_leap_year(); years count from 1900 and are not negative. */
  predicate IsLeap(year: nat) {
    (year % 4 == 0 && year % 100 != 0) || year % 400 == 100
  }

  /** leap_years_to_end() */
  function LeapYears(year: int): int {
    Div(year, 4) - Div(year, 100) + Div(year + 300, 400)
  }

  const MONTH_START := [0, 31, 59, 90, 120, 151, 181, 212, 243, 273, 304, 334]
  const MONTH_DAYS := [31, 28, 31, 30, 31, 30, 31, 31, 30, 31, 30, 31]
  const WEEKDAY_OFFSET := [1, 4, 3, 6, 1, 4, 6, 2, 5, 0, 3, 5]

  /** A date: years since 1900, month from 0, day of month from 1. */
  datatype Date = Date(year: nat, mon: nat, mday: nat)

  function DaysIn(year: nat, mon: nat): nat
    requires mon < 12
  {
    if mon == 1 && IsLeap(year) then 29 else MONTH_DAYS[mon]
  }

  predicate ValidDate(d: Date) {
    d.mon < 12 && 1 <= d.mday <= DaysIn(d.year, d.mon)
  }

  function NextDay(d: Date): Date
    requires ValidDate(d)
  {
    if d.mday < DaysIn(d.year, d.mon) then d.(mday := d.mday + 1)
    else if d.mon < 11 then Date(d.year, d.mon + 1, 1)
    else Date(d.year + 1, 0, 1)
  }

  function DayOfYear(d: Date): int
    requires ValidDate(d)
  {
    d.mday - 1 + MONTH_START[d.mon] + (if d.mon >= 2 && IsLeap(d.year) then 1 else 0)
  }

  /** Days since 1 January 1970. */
  function DayNumber(d: Date): int
    requires ValidDate(d)
  {
    DayOfYear(d) + 365 * d.year - 25567 + LeapYears(d.year - 1)
  }

  /** day_of_week(), with January and February counted to the year before. */
  function Weekday(d: Date): int
    requires ValidDate(d)
  {
    var pseudoYear := if d.mon < 2 then d.year - 1 else d.year;
    var sum := pseudoYear + LeapYears(pseudoYear) + WEEKDAY_OFFSET[d.mon] + d.mday;
    sum % 7
  }

  lemma Quotients(y: nat, n: nat)
    requires n > 0 && y > 0
    ensures y / n == (y - 1) / n + (if y % n == 0 then 1 else 0)
  {
    var q, r := y / n, y % n;
    if r == 0 {
      assert y - 1 == (q - 1) * n + (n - 1);
      ModUnique(y - 1, q - 1, n - 1, n);
    } else {
      ModUnique(y - 1, q, r - 1, n);
    }
  }

  lemma TermStep(y: nat, n: nat)
    requires n > 0 && y > 0
    ensures Div(y, n) == Div(y - 1, n) + (if y % n == 0 then 1 else 0)
  {
    Quotients(y, n);
  }

  lemma LeapCases(y: nat)
    ensures (if y % 4 == 0 then 1 else 0) - (if y % 100 == 0 then 1 else 0) + (if (y + 300) % 400 == 0 then 1 else 0) ==
            if IsLeap(y) then 1 else 0
  {
  }

  /** Each leap year adds one to the number of leap years. */
  lemma LeapStep(y: nat)
    ensures LeapYears(y) == LeapYears(y - 1) + (if IsLeap(y) then 1 else 0)
  {
    LeapCases(y);
    if y > 0 {
      TermStep(y, 4);
      TermStep(y, 100);
      TermStep(y + 300, 400);
    }
  }

  lemma NewYear(year: nat)
    ensures DayNumber(Date(year + 1, 0, 1)) == DayNumber(Date(year, 11, 31)) + 1
  {
    LeapStep(year);
  }

  lemma NewMonth(year: nat, m: nat)
    requires m < 11
    ensures DayNumber(Date(year, m + 1, 1)) == DayNumber(Date(year, m, DaysIn(year, m))) + 1
  {
  }

  /** Consecutive dates have consecutive day numbers. */
  lemma Consecutive(d: Date)
    requires ValidDate(d)
    ensures ValidDate(NextDay(d)) && DayNumber(NextDay(d)) == DayNumber(d) + 1
  {
    if d.mday == DaysIn(d.year, d.mon) {
      if d.mon < 11 { NewMonth(d.year, d.mon); } else { NewYear(d.year); }
    }
  }

  /** 1 January 1970 was day zero. */
  lemma Epoch()
    ensures DayNumber(Date(70, 0, 1)) == 0
  {
  }

  /** Later dates have larger day numbers. */
  predicate Before(d: Date, e: Date) {
    d.year < e.year || (d.year == e.year && (d.mon < e.mon || (d.mon == e.mon && d.mday < e.mday)))
  }

  /** Days from the start of 1900 to the start of a year grow by at least 365 a year. */
  lemma {:induction false} YearsApart(y: nat, z: nat)
    requires y <= z
    ensures LeapYears(y - 1) <= LeapYears(z - 1)
    decreases z - y
  {
    if y < z {
      LeapStep(z - 1);
      YearsApart(y, z - 1);
    }
  }

  lemma YearLength(d: Date)
    requires ValidDate(d)
    ensures 0 <= DayOfYear(d) < 365 + (if IsLeap(d.year) then 1 else 0)
  {
  }

  lemma WithinYear(d: Date, e: Date)
    requires ValidDate(d) && ValidDate(e) && d.year == e.year && Before(d, e)
    ensures DayOfYear(d) < DayOfYear(e)
  {
  }

  lemma Gap(yd: int, ye: int, y: int, z: int, ly: int, lz: int, leap: int)
    requires y < z && yd < 365 + leap && 0 <= ye && ly + leap <= lz
    ensures yd + 365 * y - 25567 + ly < ye + 365 * z - 25567 + lz
  {
  }

  lemma Monotone(d: Date, e: Date)
    requires ValidDate(d) && ValidDate(e) && Before(d, e)
    ensures DayNumber(d) < DayNumber(e)
  {
    if d.year == e.year {
      WithinYear(d, e);
    } else {
      YearLength(d);
      YearLength(e);
      LeapStep(d.year);
      YearsApart(d.year + 1, e.year);
      Gap(DayOfYear(d), DayOfYear(e), d.year, e.year, LeapYears(d.year - 1), LeapYears(e.year - 1),
        if IsLeap(d.year) then 1 else 0);
    }
  }

  /** Offsets of the months agree with their starts modulo seven, with the year before for January and February. */
  lemma OffsetIs(mon: nat)
    requires mon < 12
    ensures (MONTH_START[mon] + (if mon < 2 then 1 else 0) - WEEKDAY_OFFSET[mon]) % 7 == 0
  {
  }

  lemma SameModSeven(a: int, b: int, k: int)
    requires a == b + 7 * k
    ensures a % 7 == b % 7
  {
  }

  /** The day of the week is the day number plus four, modulo seven. */
  lemma WeekdayIs(d: Date)
    requires ValidDate(d)
    ensures Weekday(d) == (DayNumber(d) + 4) % 7
  {
    LeapStep(d.year);
    OffsetIs(d.mon);
    var y := if d.mon < 2 then d.year - 1 else d.year;
    var k := (MONTH_START[d.mon] + (if d.mon < 2 then 1 else 0) - WEEKDAY_OFFSET[d.mon]) / 7;
    SameModSeven(DayNumber(d) + 4, y + LeapYears(y) + WEEKDAY_OFFSET[d.mon] + d.mday, k + 52 * d.year - 3652);
  }

  datatype Moment = Moment(date: Date, hour: nat, min: nat, sec: nat)

  /** The formula of section 4.15 of POSIX:2008. */
  function PosixSeconds(m: Moment): int
    requires ValidDate(m.date)
  {
    var y := m.date.year;
    m.sec + m.min * 60 + m.hour * 3600 + DayOfYear(m.date) * 86400 + (y - 70) * 31536000
    + Div(y - 69, 4) * 86400 - Div(y - 1, 100) * 86400 + Div(y + 299, 400) * 86400
  }

  function Seconds(m: Moment): int
    requires ValidDate(m.date)
  {
    DayNumber(m.date) * 86400 + (m.hour * 3600 + m.min * 60 + m.sec)
  }

  lemma PosixAgrees(m: Moment)
    requires ValidDate(m.date) && m.date.year >= 70
    ensures Seconds(m) == PosixSeconds(m)
  {
  }

  class BrokenDown {
    const moment: Moment
    var yday: int
    var wday: int

    /** mktime() */
    method Mktime() returns (seconds: int)
      requires ValidDate(moment.date)
      modifies this`yday, this`wday
      ensures seconds == Seconds(moment)
      ensures yday == DayOfYear(moment.date) && wday == (DayNumber(moment.date) + 4) % 7
      ensures moment.date.year >= 70 ==> seconds == PosixSeconds(moment)
    {
      var d := moment.date;
      yday := d.mday - 1 + MONTH_START[d.mon];
      if d.mon >= 2 && IsLeap(d.year) { yday := yday + 1; }
      wday := Weekday(d);
      WeekdayIs(d);
      if d.year >= 70 { PosixAgrees(moment); }
      var days := yday + 365 * d.year - 25567 + LeapYears(d.year - 1);
      var sinceDay := (moment.hour * 60 + moment.min) * 60 + moment.sec;
      seconds := days * 86400 + sinceDay;
    }
  }
}
