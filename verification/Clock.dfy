/**
 Dutch civil time from Unix time, as the Pico computes it for the page header: 32-bit arithmetic,
 counting loops for year and month, and the switch between winter and summer time.
 */
module Clock {
  import opened Bytes

  const DAY: nat := 86400

  // ---------------------------------------------------------------------------------------
  // The calendar. Days are counted from 1 January 1970, months from 0, Sunday is 0.

  predicate IsLeap(year: nat) {
    (year % 4 == 0 && year % 100 != 0) || year % 400 == 0
  }

  function YearDays(year: nat): nat {
    if IsLeap(year) then 366 else 365
  }

  /** The day number of 1 January. */
  function YearStart(year: nat): nat
    requires year >= 1970
  {
    if year == 1970 then 0 else YearStart(year - 1) + YearDays(year - 1)
  }

  function MonthDays(month: nat, leap: bool): (n: nat)
    requires month < 12
    ensures 28 <= n <= 31
  {
    if month == 1 then (if leap then 29 else 28)
    else if month == 3 || month == 5 || month == 8 || month == 10 then 30
    else 31
  }

  /** Days of the year before the first of the month. */
  function MonthStart(month: nat, leap: bool): nat
    requires month <= 12
  {
    if month == 0 then 0 else MonthStart(month - 1, leap) + MonthDays(month - 1, leap)
  }

  function DayNumber(year: nat, month: nat, day: nat): nat
    requires year >= 1970 && month < 12 && day >= 1
  {
    YearStart(year) + MonthStart(month, IsLeap(year)) + day - 1
  }

  predicate ValidDate(year: nat, month: nat, day: nat) {
    year >= 1970 && month < 12 && 1 <= day <= MonthDays(month, IsLeap(year))
  }

  function Weekday(day: nat): nat {
    (day + 4) % 7
  }

  lemma MonthStarts(leap: bool)
    ensures var extra := if leap then 1 else 0;
            && MonthStart(2, leap) == 59 + extra && MonthStart(3, leap) == 90 + extra
            && MonthStart(9, leap) == 273 + extra && MonthStart(10, leap) == 304 + extra
            && MonthStart(12, leap) == 365 + extra
  {
    assert MonthStart(1, leap) == 31;
    assert MonthStart(4, leap) == MonthStart(3, leap) + 30;
    assert MonthStart(6, leap) == MonthStart(4, leap) + 61;
    assert MonthStart(8, leap) == MonthStart(6, leap) + 62;
    assert MonthStart(10, leap) == MonthStart(8, leap) + 61;
  }

  // ---------------------------------------------------------------------------------------
  // The Gregorian calendar by arithmetic instead of tables and loops

  /** Leap days up to the end of a year: every fourth year has one, full centuries only if 400 divides them. */
  function LeapDays(year: nat): int {
    year / 4 - year / 100 + year / 400
  }

  /** Days before the first of a month; from March on, five months have 153 days. */
  function DaysBefore(month: nat, leap: bool): nat {
    if month < 2 then 31 * month else (153 * (month - 2) + 2) / 5 + 59 + (if leap then 1 else 0)
  }

  lemma MonthsAreGregorian(month: nat, leap: bool)
    requires month <= 12
    ensures MonthStart(month, leap) == DaysBefore(month, leap)
  {
    if month > 0 {
      MonthsAreGregorian(month - 1, leap);
    }
  }

  lemma FourthStep(n: nat)
    requires n >= 1
    ensures n / 4 == (n - 1) / 4 + if n % 4 == 0 then 1 else 0
  {
    var q, r := n / 4, n % 4;
    assert n == 4 * q + r;
    if r == 0 {
      assert n - 1 == 4 * (q - 1) + 3;
    } else {
      assert n - 1 == 4 * q + (r - 1);
    }
  }

  lemma CenturyStep(n: nat)
    requires n >= 1
    ensures n / 100 == (n - 1) / 100 + if n % 100 == 0 then 1 else 0
  {
    var q, r := n / 100, n % 100;
    assert n == 100 * q + r;
    if r == 0 {
      assert n - 1 == 100 * (q - 1) + 99;
    } else {
      assert n - 1 == 100 * q + (r - 1);
    }
  }

  lemma FourCenturyStep(n: nat)
    requires n >= 1
    ensures n / 400 == (n - 1) / 400 + if n % 400 == 0 then 1 else 0
  {
    var q, r := n / 400, n % 400;
    assert n == 400 * q + r;
    if r == 0 {
      assert n - 1 == 400 * (q - 1) + 399;
    } else {
      assert n - 1 == 400 * q + (r - 1);
    }
  }

  lemma CenturyIsFourth(n: nat)
    ensures n % 100 == 0 ==> n % 4 == 0
  {
    TimesFour(25 * (n / 100));
  }

  lemma TimesFour(k: nat)
    ensures 4 * k % 4 == 0
  {
  }

  lemma FourCenturyIsCentury(n: nat)
    ensures n % 400 == 0 ==> n % 100 == 0
  {
    TimesHundred(4 * (n / 400));
  }

  lemma TimesHundred(k: nat)
    ensures 100 * k % 100 == 0
  {
  }

  lemma LeapDaysStep(year: nat)
    requires year >= 1
    ensures LeapDays(year) == LeapDays(year - 1) + if IsLeap(year) then 1 else 0
  {
    FourthStep(year);
    CenturyStep(year);
    FourCenturyStep(year);
    CenturyIsFourth(year);
    FourCenturyIsCentury(year);
  }

  lemma YearsAreGregorian(year: nat)
    requires year >= 1970
    ensures YearStart(year) == 365 * (year - 1970) + LeapDays(year - 1) - LeapDays(1969)
  {
    hide IsLeap, LeapDays;
    if year > 1970 {
      YearsAreGregorian(year - 1);
      LeapDaysStep(year - 1);
    }
  }

  // ---------------------------------------------------------------------------------------
  // Summer time as Articles 2 and 3 of Directive 2000/84/EC lay it down

  const MARCH: nat := 2
  const OCTOBER: nat := 9

  ghost predicate IsLastSunday(day: nat, year: nat, month: nat)
    requires year >= 1970 && month < 12
  {
    var first := DayNumber(year, month, 1);
    var length := MonthDays(month, IsLeap(year));
    Weekday(day) == 0 && first <= day < first + length <= day + 7
  }

  function LastSunday(year: nat, month: nat): nat
    requires year >= 1970 && month < 12
  {
    var last := DayNumber(year, month, MonthDays(month, IsLeap(year)));
    last - Weekday(last)
  }

  lemma LastSundayIsLast(year: nat, month: nat, day: nat)
    requires year >= 1970 && month < 12
    ensures IsLastSunday(day, year, month) <==> day == LastSunday(year, month)
  {
    var first := DayNumber(year, month, 1);
    var last := DayNumber(year, month, MonthDays(month, IsLeap(year)));
    assert last == first + MonthDays(month, IsLeap(year)) - 1;
    assert Weekday(last - Weekday(last)) == 0;
  }

  /** Between 01:00 UTC on the last Sundays of March and October. */
  predicate SummerTime(year: nat, time: nat)
    requires year >= 1970
  {
    LastSunday(year, MARCH) * DAY + 3600 <= time < LastSunday(year, OCTOBER) * DAY + 3600
  }

  // ---------------------------------------------------------------------------------------
  // What the firmware uses instead: day 304 of the year, which is 1 November unless it is a leap year

  function DstEndDay(year: nat): nat
    requires year >= 1970
  {
    var october31 := YearStart(year) + 304;
    october31 - Weekday(october31)
  }

  predicate FirmwareSummer(year: nat, time: nat)
    requires year >= 1970
  {
    LastSunday(year, MARCH) * DAY + 3600 <= time < DstEndDay(year) * DAY + 3600
  }

  /** A year without 29 February in which 1 November is a Sunday. */
  predicate EndsLate(year: nat)
    requires year >= 1970
  {
    !IsLeap(year) && Weekday(DayNumber(year, 10, 1)) == 0
  }

  lemma DstEnd(year: nat)
    requires year >= 1970
    ensures DstEndDay(year) == if EndsLate(year) then DayNumber(year, 10, 1) else LastSunday(year, OCTOBER)
    ensures EndsLate(year) ==> LastSunday(year, OCTOBER) == DayNumber(year, 10, 1) - 7
  {
    MonthStarts(IsLeap(year));
    var october31 := DayNumber(year, OCTOBER, 31);
    assert DayNumber(year, 10, 1) == october31 + 1;
  }

  lemma MarchBeforeOctober(year: nat)
    requires year >= 1970
    ensures LastSunday(year, MARCH) < LastSunday(year, OCTOBER)
  {
    MonthStarts(IsLeap(year));
  }

  /**
   The firmware follows the Directive at every moment, except in the last week of October of years
   in which 1 November is a Sunday and which are not leap years: then its summer lasts a week longer.
   */
  lemma SummerTimeExactly(year: nat, time: nat)
    requires year >= 1970
    ensures (FirmwareSummer(year, time) <==> SummerTime(year, time)) <==>
            !(EndsLate(year) &&
              LastSunday(year, OCTOBER) * DAY + 3600 <= time < DayNumber(year, 10, 1) * DAY + 3600)
  {
    DstEnd(year);
    MarchBeforeOctober(year);
  }

  lemma NextYear(year: nat)
    requires year >= 1970
    ensures YearStart(year + 1) == YearStart(year) + YearDays(year)
  {
  }

  /** Between 1970 and 2099 every fourth year is a leap year, 2000 included. */
  lemma FourYearDays(year: nat)
    requires 1970 <= year <= 2096 && year % 4 == 2
    ensures YearDays(year) + YearDays(year + 1) + YearDays(year + 2) + YearDays(year + 3) == 1461
  {
    assert !IsLeap(year) && !IsLeap(year + 1) && !IsLeap(year + 3);
    assert (year + 2) % 100 == 0 ==> year + 2 == 2000;
  }

  lemma FirstYear()
    ensures YearStart(1970) == 0
  {
  }

  lemma {:induction false} FourYears(k: nat)
    requires k <= 32
    ensures YearStart(1970 + 4 * k) == 1461 * k
  {
    hide YearStart, YearDays;
    FirstYear();
    if k > 0 {
      var y := 1970 + 4 * (k - 1);
      FourYears(k - 1);
      NextYear(y);
      NextYear(y + 1);
      NextYear(y + 2);
      NextYear(y + 3);
      FourYearDays(y);
    }
  }

  /** 2026 is such a year: on 28 October 2026 at noon the firmware still shows summer time. */
  lemma SummerTooLong()
    ensures EndsLate(2026)
    ensures DayNumber(2026, OCTOBER, 28) == 20754
    ensures FirmwareSummer(2026, 20754 * DAY + 43200) && !SummerTime(2026, 20754 * DAY + 43200)
  {
    FourYears(14);
    MonthStarts(false);
  }

  // ---------------------------------------------------------------------------------------
  // The conversion

  /** The year in which a day falls. */
  ghost predicate InYear(day: nat, year: nat) {
    year >= 1970 && YearStart(year) <= day < YearStart(year) + YearDays(year)
  }

  method FindYear(days: uint32) returns (year: nat, firstDay: nat)
    ensures InYear(days, year) && firstDay == YearStart(year)
  {
    firstDay, year := 0, 1970;
    while true
      invariant year >= 1970 && firstDay == YearStart(year) <= days
      decreases days - firstDay
    {
      var yearDays := if IsLeap(year) then 366 else 365;
      if days < firstDay + yearDays {
        break;
      }
      firstDay := firstDay + yearDays;
      year := year + 1;
    }
  }

  method FindMonth(start: nat, leap: bool) returns (month: nat, dayOfMonth: nat)
    requires start < if leap then 366 else 365
    ensures month < 12 && dayOfMonth < MonthDays(month, leap)
    ensures MonthStart(month, leap) + dayOfMonth == start
  {
    MonthStarts(leap);
    month, dayOfMonth := 0, start;
    while month < 11
      invariant month <= 11 && MonthStart(month, leap) + dayOfMonth == start
      invariant month == 11 || dayOfMonth <= 366
    {
      var daysInMonth := MonthDays(month, leap);
      if dayOfMonth < daysInMonth {
        break;
      }
      dayOfMonth := dayOfMonth - daysInMonth;
      month := month + 1;
    }
    assert month == 11 ==> MonthStart(12, leap) == MonthStart(11, leap) + MonthDays(11, leap);
  }

  datatype Components = Components(hour: byte, minute: byte, second: byte, day: byte, month: byte, year: byte, weekday: byte)

  /** The fields form a date and time of day, and together they say this local time. */
  ghost predicate Shows(c: Components, localTime: nat) {
    && c.hour < 24 && c.minute < 60 && c.second < 60 && c.month >= 1
    && ValidDate(2000 + c.year as nat, c.month - 1, c.day)
    && DayNumber(2000 + c.year as nat, c.month - 1, c.day) * DAY + c.hour * 3600 + c.minute * 60 + c.second == localTime
    && c.weekday == Weekday(DayNumber(2000 + c.year as nat, c.month - 1, c.day))
  }

  /** Days since 1 January 1970, by arithmetic. */
  function GregorianDay(year: nat, month: nat, day: nat): int {
    365 * (year - 1970) + LeapDays(if year > 0 then year - 1 else 0) - 477 + DaysBefore(month, IsLeap(year)) + day - 1
  }

  lemma DayIsGregorian(year: nat, month: nat, day: nat)
    requires ValidDate(year, month, day)
    ensures DayNumber(year, month, day) == GregorianDay(year, month, day)
    ensures day <= DaysBefore(month + 1, IsLeap(year)) - DaysBefore(month, IsLeap(year))
  {
    hide YearStart, MonthStart, MonthDays, DaysBefore, IsLeap;
    YearsAreGregorian(year);
    MonthsAreGregorian(month, IsLeap(year));
    MonthsAreGregorian(month + 1, IsLeap(year));
    MonthStartStep(month + 1, IsLeap(year));
  }

  /** What is shown is the date and time of the Gregorian calendar for that many seconds since 1970. */
  lemma ShowsGregorian(c: Components, localTime: nat)
    requires Shows(c, localTime)
    ensures var year, leap := 2000 + c.year as nat, IsLeap(2000 + c.year as nat);
            var day := GregorianDay(year, c.month - 1, c.day);
            && localTime == (((day * 24) + c.hour) * 60 + c.minute) * 60 + c.second
            && c.day <= DaysBefore(c.month, leap) - DaysBefore(c.month - 1, leap)
            && c.weekday == (day + 4) % 7
  {
    hide YearStart, MonthStart, MonthDays, DayNumber, GregorianDay, DaysBefore, IsLeap;
    DayIsGregorian(2000 + c.year as nat, c.month - 1, c.day);
  }

  lemma MonthStartStep(month: nat, leap: bool)
    requires 1 <= month <= 12
    ensures MonthStart(month, leap) == MonthStart(month - 1, leap) + MonthDays(month - 1, leap)
  {
  }

  lemma {:induction false} YearStartMonotone(a: nat, b: nat)
    requires 1970 <= a <= b
    ensures YearStart(a) + 365 * (b - a) <= YearStart(b)
    decreases b
  {
    if a < b {
      YearStartMonotone(a, b - 1);
    }
  }

  lemma YearIsUnique(day: nat, a: nat, b: nat)
    requires InYear(day, a) && InYear(day, b)
    ensures a == b
  {
    if a < b {
      YearStartMonotone(a + 1, b);
    } else if b < a {
      YearStartMonotone(b + 1, a);
    }
  }

  /** Up to 2105 no computation of the firmware leaves 32 bits. */
  lemma LastYears()
    ensures YearStart(2000) == 10957 && YearStart(2106) == 49673
  {
    hide YearStart;
    FourYears(7);
    FourYears(32);
    NextYear(1998);
    NextYear(1999);
    NextYear(2098);
    NextYear(2099);
    NextYear(2100);
    NextYear(2101);
    NextYear(2102);
    NextYear(2103);
    NextYear(2104);
    NextYear(2105);
  }

  /** The start of summer, as the firmware computes it from the first day of the year. */
  lemma SummerStart(year: nat, march31: nat)
    requires year >= 1970
    requires march31 == YearStart(year) + 89 + if IsLeap(year) then 1 else 0
    ensures LastSunday(year, MARCH) == march31 - (march31 + 4) % 7
  {
    hide YearStart;
    MonthStarts(IsLeap(year));
    assert DayNumber(year, MARCH, 31) == march31;
  }

  lemma YearStartBound(year: nat)
    requires 1970 <= year <= 2105
    ensures YearStart(year) <= 49308
  {
    hide YearStart;
    LastYears();
    NextYear(2105);
    YearStartMonotone(year, 2105);
  }

  /** Seconds to add: one hour, and another in summer. */
  method LocalOffset(unixTime: uint32, year: nat, firstDay: nat) returns (offset: nat)
    requires InYear(unixTime / DAY, year) && firstDay == YearStart(year)
    ensures year <= 2105 ==> offset == if FirmwareSummer(year, unixTime) then 7200 else 3600
    ensures offset <= 7200
  {
    hide LastSunday, YearStart;
    var march31 := firstDay + 31 + 28 + (if IsLeap(year) then 1 else 0) + 30;
    var october31 := firstDay + 304;
    SummerStart(year, march31);
    if year <= 2105 {
      YearStartBound(year);
    }
    var dstStartDay := march31 - (march31 + 4) % 7;
    var dstEndDay := october31 - (october31 + 4) % 7;
    assert dstEndDay == DstEndDay(year);
    var dstStart := (dstStartDay * DAY + 3600) % 0x1_0000_0000;
    var dstEnd := (dstEndDay * DAY + 3600) % 0x1_0000_0000;
    offset := 3600 + (if unixTime >= dstStart && unixTime < dstEnd then 3600 else 0);
  }

  lemma TimeOfDay(seconds: nat)
    requires seconds < DAY
    ensures seconds / 3600 < 24
    ensures seconds / 3600 * 3600 + seconds / 60 % 60 * 60 + seconds % 60 == seconds
  {
    assert seconds / 3600 == seconds / 60 / 60;
  }

  method Fields(localTime: uint32) returns (result: Components)
    ensures forall year :: 2000 <= year <= 2106 && InYear(localTime / DAY, year) ==> Shows(result, localTime)
  {
    hide IsLeap, MonthDays, MonthStart, YearStart, Shows;
    var localDays: uint32, daySeconds := localTime / DAY, localTime % DAY;
    var year, firstDay := FindYear(localDays);
    var month, dayOfMonth := FindMonth(localDays - firstDay, IsLeap(year));
    TimeOfDay(daySeconds);
    result := Components(daySeconds / 3600, daySeconds / 60 % 60, daySeconds % 60,
                         dayOfMonth + 1, month + 1, (year + 0x1_0000_0000 - 2000) % 0x100, (localDays as nat + 4) % 7);
    forall y | 2000 <= y <= 2106 && InYear(localTime / DAY, y)
      ensures Shows(result, localTime)
    {
      YearIsUnique(localDays, y, year);
      FieldsShow(localTime, year, month, dayOfMonth, result);
    }
  }

  lemma FieldsShow(localTime: nat, year: nat, month: nat, dayOfMonth: nat, c: Components)
    requires 2000 <= year <= 2106 && month < 12 && dayOfMonth < MonthDays(month, IsLeap(year))
    requires YearStart(year) + MonthStart(month, IsLeap(year)) + dayOfMonth == localTime / DAY
    requires c.hour == localTime % DAY / 3600 && c.minute == localTime % DAY / 60 % 60 && c.second == localTime % DAY % 60
    requires c.day == dayOfMonth + 1 && c.month == month + 1 && c.year == year - 2000
    requires c.weekday == Weekday(localTime / DAY)
    ensures Shows(c, localTime)
  {
    hide YearStart, MonthStart, IsLeap, MonthDays;
    TimeOfDay(localTime % DAY);
    assert DayNumber(year, month, dayOfMonth + 1) == localTime / DAY;
  }

  method LocalComponents(unixTime: uint32) returns (ok: bool, result: Components)
    ensures ok <==> unixTime != 0
    ensures !ok ==> result == Components(0, 0, 0, 0, 0, 0, 0)
    ensures forall year :: 2000 <= year <= 2105 && InYear(unixTime / DAY, year) ==>
              Shows(result, unixTime as nat + if FirmwareSummer(year, unixTime) then 7200 else 3600)
  {
    hide YearStart, YearDays, FirmwareSummer, Shows;
    if unixTime == 0 {
      forall year | 2000 <= year && InYear(0, year)
        ensures false
      {
        YearStartMonotone(1970, year);
      }
      return false, Components(0, 0, 0, 0, 0, 0, 0);
    }
    var days: uint32 := unixTime / DAY;
    var year, firstDay := FindYear(days);
    var offset := LocalOffset(unixTime, year, firstDay);
    var localTime: uint32 := (unixTime as nat + offset) % 0x1_0000_0000;
    result := Fields(localTime);
    forall y | 2000 <= y <= 2105 && InYear(days, y)
      ensures Shows(result, unixTime as nat + if FirmwareSummer(y, unixTime) then 7200 else 3600)
    {
      YearIsUnique(days, y, year);
      LocalYear(unixTime, y, offset);
    }
    return true, result;
  }

  /** Local time is in the same year or at the very start of the next one. */
  lemma LocalYear(time: uint32, year: nat, offset: nat)
    requires 2000 <= year <= 2105 && InYear(time / DAY, year) && offset <= 7200
    ensures time as nat + offset < 0x1_0000_0000
    ensures InYear((time as nat + offset) / DAY, year) || InYear((time as nat + offset) / DAY, year + 1)
  {
    LastYears();
    YearStartMonotone(year + 1, 2106);
    var day := (time as nat + offset) / DAY;
    assert time / DAY <= day <= time / DAY + 1;
    assert YearStart(year + 1) == YearStart(year) + YearDays(year);
  }
}
