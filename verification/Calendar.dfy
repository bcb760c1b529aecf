/** Conversion between the calendar date of the clock and Unix time. */
module Calendar {
  import opened Bytes

  const NON_LEAP: seq<nat> := [0, 31, 59, 90, 120, 151, 181, 212, 243, 273, 304, 334, 365]
  const LEAP: seq<nat> := [0, 31, 60, 91, 121, 152, 182, 213, 244, 274, 305, 335, 366]

  datatype Date = Date(year: nat, month: nat, day: nat, hour: nat, minute: nat, second: nat)

  predicate IsLeap(year: nat) { year % 4 == 0 }

  /** The length of month number m. */
  function MonthDays(leap: bool, m: nat): nat {
    if m == 2 then (if leap then 29 else 28) else if m == 4 || m == 6 || m == 9 || m == 11 then 30 else 31
  }

  /** The tables add up the lengths of the months. */
  lemma MonthLengths(year: nat, m: nat)
    requires 1 <= m <= 12
    ensures Cumulative(year, m) == Cumulative(year, m - 1) + MonthDays(year % 4 == 0, m)
  {
  }

  /** Days of the year before month number m + 1. */
  function Cumulative(year: nat, m: nat): (n: nat)
    requires m <= 12
    ensures m == 0 ==> n == 0
    ensures n <= 366
  {
    if IsLeap(year) then LEAP[m] else NON_LEAP[m]
  }

  function YearDays(year: nat): nat { if IsLeap(year) then 366 else 365 }

  ghost predicate ValidDate(d: Date) {
    && 1970 <= d.year && 1 <= d.month <= 12
    && 1 <= d.day <= MonthDays(d.year % 4 == 0, d.month)
    && d.hour < 24 && d.minute < 60 && d.second < 60
  }

  /** Days from 1 January 1970 to 1 January of the year. */
  function DaysTo(year: nat): (n: nat)
    ensures year <= 1970 ==> n == 0
  {
    if year <= 1970 then 0 else DaysTo(year - 1) + YearDays(year - 1)
  }

  /** Day within the year, from 0. */
  function YearDay(d: Date): int
    requires 1 <= d.month <= 12
  {
    Cumulative(d.year, d.month - 1) + d.day - 1
  }

  function Clock(d: Date): nat { d.second + 60 * d.minute + 3600 * d.hour }

  /** Seconds since 1 January 1970 by the calendar the clock keeps, in which every fourth
      year is a leap year. */
  function Seconds(d: Date): int
    requires 1 <= d.month <= 12
  {
    86400 * (DaysTo(d.year) + YearDay(d)) + Clock(d)
  }

  // ---- The two conversions

  /** The date structure both functions work on. */
  class PTime {
    var year: nat
    var month: nat
    var day: nat
    var hour: nat
    var minute: nat
    var second: nat

    function Value(): Date
      reads this
    {
      Date(year, month, day, hour, minute, second)
    }
  }

  /** 32-bit truncation. */
  function Wrap(x: int): (r: nat)
    ensures r < DWORD
    ensures 0 <= x < DWORD ==> r == x
  {
    x % DWORD
  }

  lemma WrapAdd(x: int, y: int)
    ensures Wrap(Wrap(x) + y) == Wrap(x + y)
  {
    var q := x / DWORD;
    assert x == DWORD * q + Wrap(x);
    WrapShift(Wrap(x) + y, q);
  }

  lemma WrapShift(x: int, q: int)
    ensures Wrap(DWORD * q + x) == Wrap(x)
  {
  }

  /** date2UnixTimestamp, in 32-bit arithmetic. */
  method ToUnix(date: PTime) returns (timeC: nat)
    requires 1 <= date.month <= 12 && date.year < 0x10000
    ensures timeC == Wrap(Seconds(date.Value()))
  {
    hide Wrap, Cumulative;
    ghost var d := date.Value();
    timeC := Wrap(date.second);
    WrapAdd(date.second, date.minute * 60);
    timeC := Wrap(timeC + date.minute * 60);
    WrapAdd(date.second + date.minute * 60, date.hour * 3600);
    timeC := Wrap(timeC + date.hour * 3600);
    WrapAdd(Clock(d), (date.day - 1) * 86400);
    timeC := Wrap(timeC + (date.day - 1) * 86400);
    WrapAdd(Clock(d) + (date.day - 1) * 86400, Cumulative(date.year, date.month - 1) * 86400);
    timeC := Wrap(timeC + Cumulative(date.year, date.month - 1) * 86400);
    ghost var base := Clock(d) + 86400 * YearDay(d);
    var i := 1970;
    while i < date.year
      invariant 1970 <= i && (i == 1970 || i <= date.year) && timeC == Wrap(base + 86400 * DaysTo(i))
    {
      var year := if IsLeap(i) then 31622400 else 31536000;
      WrapAdd(base + 86400 * DaysTo(i), year);
      timeC := Wrap(timeC + year);
      i := i + 1;
    }
  }

  /** unixTimestamp2Date: a valid date that stands for the given second. */
  method FromUnix(date: PTime, time: nat)
    requires time < DWORD
    modifies date
    ensures ValidDate(date.Value()) && Seconds(date.Value()) == time
  {
    var t: nat := time;
    date.year := 1970;
    while true
      invariant 1970 <= date.year && 86400 * DaysTo(date.year) + t == time
      decreases t
    {
      var secondsInThisYear := if IsLeap(date.year) then 31622400 else 31536000;
      if t < secondsInThisYear {
        break;
      }
      t := t - secondsInThisYear;
      date.year := date.year + 1;
    }
    date.month := 1;
    while Cumulative(date.year, date.month) * 86400 <= t
      invariant 1 <= date.month <= 12 && 1970 <= date.year && 86400 * DaysTo(date.year) + t == time
      invariant t < 86400 * YearDays(date.year) && Cumulative(date.year, date.month - 1) * 86400 <= t
      decreases 12 - date.month
    {
      date.month := date.month + 1;
    }
    t := t - Cumulative(date.year, date.month - 1) * 86400;
    date.day := t / 86400 + 1;
    date.hour := t % 86400 / 3600;
    date.minute := t % 3600 / 60;
    date.second := t % 60;
    SplitDay(t);
  }

  lemma SplitDay(t: nat)
    ensures t == 86400 * (t / 86400) + 3600 * (t % 86400 / 3600) + 60 * (t % 3600 / 60) + t % 60
    ensures t % 86400 / 3600 < 24 && t % 3600 / 60 < 60
  {
    var d, r := t / 86400, t % 86400;
    assert t % 3600 == r % 3600;
    assert t % 60 == r % 3600 % 60;
  }

  // ---- Order and uniqueness

  /** Earlier in the calendar. */
  predicate Before(a: Date, b: Date) {
    if a.year != b.year then a.year < b.year
    else if a.month != b.month then a.month < b.month
    else if a.day != b.day then a.day < b.day
    else if a.hour != b.hour then a.hour < b.hour
    else if a.minute != b.minute then a.minute < b.minute
    else a.second < b.second
  }

  lemma {:induction false} YearsApart(y: nat, z: nat)
    requires 1970 <= y < z
    ensures DaysTo(y) + YearDays(y) <= DaysTo(z)
    decreases z
  {
    if y < z - 1 {
      YearsApart(y, z - 1);
    }
  }

  lemma MonthsApart(year: nat, m: nat, k: nat)
    requires 1 <= m < k <= 12
    ensures Cumulative(year, m) <= Cumulative(year, k - 1)
    ensures Cumulative(year, k) <= YearDays(year)
  {
  }

  lemma InYear(d: Date)
    requires ValidDate(d)
    ensures 0 <= YearDay(d) < YearDays(d.year) && Clock(d) < 86400
  {
  }

  lemma EarlierSeconds(a: Date, b: Date)
    requires ValidDate(a) && ValidDate(b) && Before(a, b)
    ensures Seconds(a) < Seconds(b)
  {
    InYear(a);
    InYear(b);
    if a.year < b.year {
      YearsApart(a.year, b.year);
    } else if a.month < b.month {
      MonthsApart(a.year, a.month, b.month);
    }
  }

  /** Timestamp order is date order. */
  lemma OrderPreserved(a: Date, b: Date)
    requires ValidDate(a) && ValidDate(b)
    ensures Before(a, b) <==> Seconds(a) < Seconds(b)
  {
    if Before(a, b) {
      EarlierSeconds(a, b);
    } else if a != b {
      EarlierSeconds(b, a);
    }
  }

  /** One date per second: so the two conversions undo each other both ways, for every 32-bit
      timestamp and every valid date that fits. */
  lemma DateUnique(a: Date, b: Date)
    requires ValidDate(a) && ValidDate(b) && Seconds(a) == Seconds(b)
    ensures a == b
  {
    if a != b {
      OrderPreserved(a, b);
      OrderPreserved(b, a);
    }
  }

  /** A date that fits comes back from its timestamp. */
  method ThereAndBack(date: PTime)
    requires ValidDate(date.Value()) && Seconds(date.Value()) < DWORD && date.year < 0x10000
    modifies date
    ensures date.Value() == old(date.Value())
  {
    hide Seconds, ValidDate, Wrap;
    ghost var d := date.Value();
    InRange(d);
    var t := ToUnix(date);
    FromUnix(date, t);
    DateUnique(d, date.Value());
  }

  lemma InRange(d: Date)
    requires ValidDate(d)
    ensures Seconds(d) >= 0 && 1 <= d.month <= 12 && 1970 <= d.year
  {
    InYear(d);
  }

  /** A timestamp comes back from its date. */
  method BackAndThere(date: PTime, time: nat) returns (t: nat)
    requires time < DWORD
    modifies date
    ensures t == time
  {
    FromUnix(date, time);
    YearBound(date.Value());
    t := ToUnix(date);
  }

  lemma {:induction false} LongAgo(y: nat)
    requires y >= 1970
    ensures DaysTo(y) >= 365 * (y - 1970)
    decreases y
  {
    if y > 1970 {
      LongAgo(y - 1);
    }
  }

  lemma YearBound(d: Date)
    requires ValidDate(d) && Seconds(d) < DWORD
    ensures d.year < 0x10000
  {
    LongAgo(d.year);
    InYear(d);
  }

  // ---- The closed formula of section 4.16 of IEEE Std 1003.1-2017

  predicate GregorianLeap(year: nat) { year % 4 == 0 && (year % 100 != 0 || year % 400 == 0) }

  /** Days of the year before month number m. */
  function DaysBefore(leap: bool, m: nat): nat
    requires m >= 1
  {
    if m == 1 then 0 else DaysBefore(leap, m - 1) + MonthDays(leap, m - 1)
  }

  lemma {:induction false} DaysBeforeIs(year: nat, m: nat)
    requires 1 <= m <= 12
    ensures Cumulative(year, m - 1) == DaysBefore(year % 4 == 0, m)
  {
    hide Cumulative, MonthDays;
    if m > 1 {
      DaysBeforeIs(year, m - 1);
      MonthLengths(year, m - 1);
    }
  }

  lemma {:induction false} LeapLater(m: nat)
    requires m >= 1
    ensures DaysBefore(true, m) == DaysBefore(false, m) + if m > 2 then 1 else 0
  {
    if m > 1 {
      LeapLater(m - 1);
    }
  }

  function GregorianYearDay(d: Date): int
    requires 1 <= d.month <= 12
  {
    DaysBefore(GregorianLeap(d.year), d.month) + d.day - 1
  }

  function PosixSeconds(d: Date): int
    requires 1 <= d.month <= 12 && 1970 <= d.year
  {
    var y := d.year - 1900;
    d.second + d.minute * 60 + d.hour * 3600 + GregorianYearDay(d) * 86400 + (y - 70) * 31536000
    + (y - 69) / 4 * 86400 - (y - 1) / 100 * 86400 + (y + 299) / 400 * 86400
  }

  lemma {:induction false} DaysToClosed(y: nat)
    requires y >= 1970
    ensures DaysTo(y) == 365 * (y - 1970) + (y - 1969) / 4
    decreases y
  {
    if y > 1970 {
      DaysToClosed(y - 1);
    }
  }

  /** The clock agrees with the formula exactly up to the end of February 2100; in every later year
      it is ahead. */
  lemma PosixUntil2100(d: Date)
    requires ValidDate(d)
    ensures Seconds(d) == PosixSeconds(d) <==> d.year < 2100 || (d.year == 2100 && d.month <= 2)
    ensures d.year > 2100 ==> Seconds(d) > PosixSeconds(d)
  {
    hide DaysTo;
    DaysToClosed(d.year);
    Centuries(d.year - 1900);
    DayInYear(d);
    if d.year <= 2106 {
      GregorianIs(d.year);
    }
  }

  /** The century days that the formula of POSIX leaves out, less those it puts back. */
  lemma Centuries(y: nat)
    requires y >= 70
    ensures y <= 200 ==> (y - 1) / 100 == (y + 299) / 400
    ensures y > 200 ==> (y - 1) / 100 > (y + 299) / 400
  {
    var q, r := (y - 1) / 100, (y - 1) % 100;
    assert y + 299 == 100 * (q + 3) + r;
    Quarters(q + 3, r);
  }

  lemma Quarters(p: nat, r: nat)
    requires r < 100
    ensures (100 * p + r) / 400 == p / 4
  {
    var a, b := p / 4, p % 4;
    assert 100 * p + r == 400 * a + (100 * b + r);
  }

  /** In a year that is a leap year only here, days after February come one later. */
  lemma DayInYear(d: Date)
    requires ValidDate(d)
    ensures YearDay(d) == GregorianYearDay(d)
         + if d.year % 4 == 0 && !GregorianLeap(d.year) && d.month > 2 then 1 else 0
  {
    hide Cumulative, DaysBefore;
    DaysBeforeIs(d.year, d.month);
    LeapLater(d.month);
  }

  lemma GregorianIs(year: nat)
    requires 1970 <= year <= 2106
    ensures GregorianLeap(year) <==> IsLeap(year) && year != 2100
  {
  }
}
