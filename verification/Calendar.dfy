// nolocks_localtime: seconds to a date by counting years and months, against the closed formula.
module Calendar {
  // --- C division

  function TruncDiv(a: int, b: int): int
    requires b > 0
  {
    if a >= 0 then a / b else -((-a) / b)
  }

  function TruncRem(a: int, b: int): int
    requires b > 0
  {
    a - b * TruncDiv(a, b)
  }

  function IsLeapYear(year: int): (leap: int)
    ensures leap == 0 || leap == 1
  {
    if TruncRem(year, 4) != 0 then 0
    else if TruncRem(year, 100) != 0 then 1
    else if TruncRem(year, 400) != 0 then 0
    else 1
  }

  // The broken-down time. Years count from 1900, months and days of the week and year from 0.
  datatype Tm = Tm(sec: int, min: int, hour: int, mday: int, mon: int, year: int, wday: int, yday: int)

  const MDAYS: seq<int> := [31, 28, 31, 30, 31, 30, 31, 31, 30, 31, 30, 31]

  function MonthDays(mon: int, year: int): int
    requires 0 <= mon < 12
  {
    MDAYS[mon] + if mon == 1 then IsLeapYear(year) else 0
  }

  function DaysBeforeMonth(mon: int, year: int): int
    requires 0 <= mon <= 12
  {
    if mon == 0 then 0 else DaysBeforeMonth(mon - 1, year) + MonthDays(mon - 1, year)
  }

  // Seconds since the Epoch, section 4.16 of the POSIX.1-2017 Base Definitions.
  function SecondsSinceEpoch(tm: Tm): int {
    tm.sec + tm.min * 60 + tm.hour * 3600 + tm.yday * 86400
    + (tm.year - 70) * 31536000 + ((tm.year - 69) / 4) * 86400
    - ((tm.year - 1) / 100) * 86400 + ((tm.year + 299) / 400) * 86400
  }

  // The same for the days before a year.
  function DaysBeforeYear(year: int): int {
    (year - 1970) * 365 + (year - 1969) / 4 - (year - 1901) / 100 + (year - 1601) / 400
  }

  // 1 January 1970 was a Thursday, and the days of the week follow each other.
  function Weekday(days: nat): (w: int)
    ensures 0 <= w < 7
  {
    if days == 0 then 4 else (Weekday(days - 1) + 1) % 7
  }

  // A date in the calendar.
  predicate InCalendar(tm: Tm) {
    && 0 <= tm.sec < 60 && 0 <= tm.min < 60 && 0 <= tm.hour < 24
    && 70 <= tm.year && 0 <= tm.mon < 12 && 1 <= tm.mday <= MonthDays(tm.mon, tm.year + 1900)
    && tm.yday == DaysBeforeMonth(tm.mon, tm.year + 1900) + tm.mday - 1
    && 0 <= tm.wday < 7
  }

  lemma QuarterStep(y: int)
    ensures (y - 1968) / 4 - (y - 1969) / 4 == if y % 4 == 0 then 1 else 0
  {
  }

  lemma CenturyStep(y: int)
    ensures (y - 1900) / 100 - (y - 1901) / 100 == if y % 100 == 0 then 1 else 0
    ensures (y - 1600) / 400 - (y - 1601) / 400 == if y % 400 == 0 then 1 else 0
  {
  }

  lemma Multiples(y: int)
    ensures y % 400 == 0 ==> y % 100 == 0
    ensures y % 100 == 0 ==> y % 4 == 0
  {
  }

  lemma LeapRule(year: nat)
    ensures IsLeapYear(year)
      == (if year % 4 == 0 then 1 else 0) - (if year % 100 == 0 then 1 else 0) + (if year % 400 == 0 then 1 else 0)
  {
    Multiples(year);
  }

  lemma YearLength(year: nat)
    ensures DaysBeforeYear(year + 1) == DaysBeforeYear(year) + 365 + IsLeapYear(year)
  {
    LeapRule(year);
    QuarterStep(year);
    CenturyStep(year);
    hide IsLeapYear;
  }

  lemma YearEnd(year: int)
    ensures DaysBeforeMonth(12, year) == 365 + IsLeapYear(year)
  {
    assert DaysBeforeMonth(1, year) == 31;
    assert DaysBeforeMonth(2, year) == 59 + IsLeapYear(year);
    assert DaysBeforeMonth(4, year) == 120 + IsLeapYear(year);
    assert DaysBeforeMonth(6, year) == 181 + IsLeapYear(year);
    assert DaysBeforeMonth(8, year) == 243 + IsLeapYear(year);
    assert DaysBeforeMonth(10, year) == 304 + IsLeapYear(year);
  }

  // The days before a month of the calendar, without a table: from March on the lengths go 31, 30, 31,
  // 30, 31 over and over.
  function MonthStart(mon: int, year: int): int
    requires 0 <= mon <= 12
  {
    var leap := if year % 4 == 0 && (year % 100 != 0 || year % 400 == 0) then 1 else 0;
    if mon == 0 then 0 else if mon == 1 then 31 else 59 + leap + (153 * (mon - 2) + 2) / 5
  }

  lemma {:induction false} MonthsByFormula(mon: int, year: nat)
    requires 0 <= mon <= 12
    ensures DaysBeforeMonth(mon, year) == MonthStart(mon, year)
    ensures mon < 12 ==> MonthStart(mon + 1, year) == MonthStart(mon, year) + MonthDays(mon, year)
  {
    LeapRule(year);
    Multiples(year);
    hide IsLeapYear;
    if mon > 0 {
      MonthsByFormula(mon - 1, year);
    }
  }

  lemma NextWeekday(days: nat)
    requires days > 0
    ensures ((days - 1 + 4) % 7 + 1) % 7 == (days + 4) % 7
  {
  }

  lemma NoMonths(year: int)
    ensures DaysBeforeMonth(0, year) == 0
  {
  }

  lemma OneMonth(mon: int, year: int)
    requires 0 <= mon < 12
    ensures DaysBeforeMonth(mon + 1, year) == DaysBeforeMonth(mon, year) + MonthDays(mon, year)
  {
  }

  lemma InParts(tm: Tm)
    ensures SecondsSinceEpoch(tm)
         == (DaysBeforeYear(tm.year + 1900) + tm.yday) * 86400 + tm.hour * 3600 + tm.min * 60 + tm.sec
  {
  }

  lemma {:induction false} WeekdayIsRemainder(days: nat)
    ensures Weekday(days) == (days + 4) % 7
  {
    if days > 0 {
      WeekdayIsRemainder(days - 1);
      NextWeekday(days);
    }
  }

  lemma Clock(s: int)
    requires 0 <= s < 86400
    ensures s / 3600 * 3600 + s % 3600 / 60 * 60 + s % 3600 % 60 == s
    ensures s / 3600 < 24 && s % 3600 / 60 < 60
  {
  }

  lemma TruncNatural(a: nat, b: int)
    requires b > 0
    ensures TruncDiv(a, b) == a / b && TruncRem(a, b) == a % b
  {
  }

  lemma TruncNegative(a: int, b: int)
    requires b > 0 && a < 0
    ensures TruncDiv(a, b) == -((-a) / b) && TruncRem(a, b) == -((-a) % b)
  {
    assert b * -((-a) / b) == -(b * ((-a) / b));
  }

  // The fields of the clock, and where a negative time shows.
  lemma ClockFields(seconds: int)
    requires -86400 < seconds < 86400
    ensures var h, r := TruncDiv(seconds, 3600), TruncRem(seconds, 3600);
      var m, s := TruncDiv(r, 60), TruncRem(r, 60);
      && h * 3600 + m * 60 + s == seconds
      && (seconds >= 0 ==> 0 <= h < 24 && 0 <= m < 60 && 0 <= s < 60)
      && (seconds < 0 ==> h < 0 || m < 0 || s < 0)
  {
    if seconds >= 0 {
      TruncNatural(seconds, 3600);
      TruncNatural(seconds % 3600, 60);
      Clock(seconds);
    } else {
      var n := -seconds;
      TruncNegative(seconds, 3600);
      if n % 3600 == 0 {
        TruncNatural(0, 60);
      } else {
        TruncNegative(-(n % 3600), 60);
      }
      Clock(n);
      hide TruncDiv, TruncRem;
    }
  }

  // Days and the seconds left, rounded towards zero.
  lemma DaysAndSeconds(t: int)
    ensures var d, s := TruncDiv(t, 86400), TruncRem(t, 86400);
      && d * 86400 + s == t && -86400 < s < 86400
      && (t >= 0 ==> d == t / 86400 && s >= 0 && TruncRem(d + 4, 7) == (d + 4) % 7)
      && (t < 0 ==> d < 0 || (d == 0 && s < 0))
  {
    if t >= 0 {
      TruncNatural(t, 86400);
      TruncNatural(t / 86400 + 4, 7);
    } else {
      TruncNegative(t, 86400);
    }
  }

  lemma StartsIn1970()
    ensures DaysBeforeYear(1970) == 0
  {
  }

  // The loop over the years: the year, and the days left in it.
  method CountYears(allDays: int) returns (year: int, days: int)
    ensures year >= 1970 && DaysBeforeYear(year) + days == allDays && days < 365 + IsLeapYear(year)
    ensures if allDays >= 0 then days >= 0 else year == 1970
  {
    StartsIn1970();
    hide IsLeapYear, DaysBeforeYear;
    days := allDays;
    year := 1970;
    var daysThisYear := 365 + IsLeapYear(year);
    while daysThisYear <= days
      invariant year >= 1970 && daysThisYear == 365 + IsLeapYear(year)
      invariant DaysBeforeYear(year) + days == allDays
      invariant if allDays >= 0 then days >= 0 else year == 1970 && days == allDays
      decreases days
    {
      YearLength(year);
      days := days - daysThisYear;
      year := year + 1;
      daysThisYear := 365 + IsLeapYear(year);
    }
  }

  // The loop over the months: the month, and the days before in it.
  method CountMonths(year: int, yday: int) returns (mon: int, days: int)
    requires yday < 365 + IsLeapYear(year)
    ensures 0 <= mon < 12 && DaysBeforeMonth(mon, year) + days == yday && days < MonthDays(mon, year)
    ensures if yday >= 0 then days >= 0 else mon == 0
    ensures year >= 0 ==> days == yday - MonthStart(mon, year) && yday < MonthStart(mon + 1, year)
  {
    YearEnd(year);
    NoMonths(year);
    hide IsLeapYear, DaysBeforeMonth, MonthStart;
    var mdays := new int[12](i requires 0 <= i < 12 => MDAYS[i]);
    mdays[1] := mdays[1] + IsLeapYear(year);
    days := yday;
    mon := 0;
    while days >= mdays[mon]
      invariant 0 <= mon < 12
      invariant forall i | 0 <= i < 12 :: mdays[i] == MonthDays(i, year)
      invariant yday == DaysBeforeMonth(mon, year) + days
      invariant if yday >= 0 then days >= 0 else mon == 0
      decreases 12 - mon
    {
      OneMonth(mon, year);
      days := days - mdays[mon];
      mon := mon + 1;
    }
    if year >= 0 {
      MonthsByFormula(mon, year);
    }
  }

  // What the fields add up to.
  lemma BrokenDown(tm: Tm, t: int, days: int, seconds: int)
    requires days * 86400 + seconds == t && -86400 < seconds < 86400
    requires if t >= 0 then days >= 0 && seconds >= 0 else days < 0 || (days == 0 && seconds < 0)
    requires tm.hour * 3600 + tm.min * 60 + tm.sec == seconds
    requires seconds >= 0 ==> 0 <= tm.hour < 24 && 0 <= tm.min < 60 && 0 <= tm.sec < 60
    requires seconds < 0 ==> tm.hour < 0 || tm.min < 0 || tm.sec < 0
    requires tm.year >= 70 && DaysBeforeYear(tm.year + 1900) + tm.yday == days
    requires if days >= 0 then tm.yday >= 0 else tm.year == 70
    requires 0 <= tm.mon < 12 && DaysBeforeMonth(tm.mon, tm.year + 1900) + tm.mday - 1 == tm.yday
    requires tm.mday <= MonthDays(tm.mon, tm.year + 1900)
    requires if tm.yday >= 0 then tm.mday >= 1 else tm.mon == 0
    requires t >= 0 ==> 0 <= tm.wday < 7
    ensures SecondsSinceEpoch(tm) == t && (InCalendar(tm) <==> t >= 0)
  {
    InParts(tm);
    StartsIn1970();
    NoMonths(tm.year + 1900);
    hide SecondsSinceEpoch, DaysBeforeYear, DaysBeforeMonth, MonthDays;
  }

  class TmBuffer {
    var isdst: int
    var sec: int
    var min: int
    var hour: int
    var mday: int
    var mon: int
    var year: int
    var wday: int
    var yday: int

    function Value(): Tm
      reads this
    {
      Tm(sec, min, hour, mday, mon, year, wday, yday)
    }

    // The formula holds for every time, but times before the Epoch are not broken down into a date:
    // C division leaves a negative field.
    method NolocksLocaltime(time: int, tz: int, dst: int)
      modifies this
      ensures var t := time - tz + 3600 * dst;
        && SecondsSinceEpoch(Value()) == t
        && (InCalendar(Value()) <==> t >= 0)
        && (t >= 0 ==> wday == Weekday(t / 86400))
        && (t >= 0 ==>
              && 0 <= mon < 12 && MonthStart(mon, year + 1900) <= yday < MonthStart(mon + 1, year + 1900)
              && mday == yday - MonthStart(mon, year + 1900) + 1)
        && isdst == dst
    {
      hide TruncDiv, TruncRem, IsLeapYear, MonthDays, DaysBeforeMonth, DaysBeforeYear, SecondsSinceEpoch, Weekday,
           InCalendar, MonthStart;
      var t := time - tz;
      t := t + 3600 * dst;
      DaysAndSeconds(t);
      var days := TruncDiv(t, 86400);
      var seconds := TruncRem(t, 86400);
      ClockFields(seconds);
      if t >= 0 {
        WeekdayIsRemainder(days);
      }
      isdst := dst;
      hour := TruncDiv(seconds, 3600);
      min := TruncDiv(TruncRem(seconds, 3600), 60);
      sec := TruncRem(TruncRem(seconds, 3600), 60);
      wday := TruncRem(days + 4, 7);
      ghost var allDays := days;
      year, days := CountYears(days);
      yday := days;
      mon, days := CountMonths(year, days);
      MonthsByFormula(mon, year);
      mday := days + 1;
      year := year - 1900;
      BrokenDown(Value(), t, allDays, seconds);
    }
  }

  // --- The date determines the time and the other way round

  // Earlier, comparing fields from the year down to the second.
  predicate Before(a: Tm, b: Tm) {
    if a.year != b.year then a.year < b.year
    else if a.mon != b.mon then a.mon < b.mon
    else if a.mday != b.mday then a.mday < b.mday
    else if a.hour != b.hour then a.hour < b.hour
    else if a.min != b.min then a.min < b.min
    else a.sec < b.sec
  }

  lemma {:induction false} YearsAddUp(a: int, b: int)
    requires 1970 <= a < b
    ensures DaysBeforeYear(a) + 365 + IsLeapYear(a) <= DaysBeforeYear(b)
    decreases b
  {
    YearLength(b - 1);
    if a < b - 1 {
      YearsAddUp(a, b - 1);
    }
  }

  lemma {:induction false} MonthsAddUp(a: int, b: int, year: int)
    requires 0 <= a < b <= 12
    ensures DaysBeforeMonth(a, year) + MonthDays(a, year) <= DaysBeforeMonth(b, year)
    decreases b
  {
    if a < b - 1 {
      MonthsAddUp(a, b - 1, year);
    }
  }

  lemma YearDay(tm: Tm)
    requires InCalendar(tm)
    ensures 0 <= tm.yday < 365 + IsLeapYear(tm.year + 1900)
  {
    YearEnd(tm.year + 1900);
    MonthsAddUp(tm.mon, 12, tm.year + 1900);
    if tm.mon > 0 {
      MonthsAddUp(0, tm.mon, tm.year + 1900);
    }
  }

  lemma EarlierIsLess(a: Tm, b: Tm)
    requires InCalendar(a) && InCalendar(b) && Before(a, b)
    ensures SecondsSinceEpoch(a) < SecondsSinceEpoch(b)
  {
    InParts(a);
    InParts(b);
    YearDay(a);
    YearDay(b);
    hide SecondsSinceEpoch, DaysBeforeYear, IsLeapYear, DaysBeforeMonth, MonthDays;
    if a.year < b.year {
      YearsAddUp(a.year + 1900, b.year + 1900);
    } else if a.mon < b.mon {
      MonthsAddUp(a.mon, b.mon, a.year + 1900);
    }
  }

  // On dates the formula preserves and reflects the order. With what NolocksLocaltime ensures, it
  // follows that two times have the same date, and dates the same order, as the times themselves.
  lemma OrderPreserved(a: Tm, b: Tm)
    requires InCalendar(a) && InCalendar(b)
    ensures SecondsSinceEpoch(a) < SecondsSinceEpoch(b) <==> Before(a, b)
  {
    if Before(a, b) {
      EarlierIsLess(a, b);
    } else if Before(b, a) {
      EarlierIsLess(b, a);
    } else {
      assert a == b.(wday := a.wday);
    }
  }

  // The date is determined by its seconds, so that no other breakdown would do.
  lemma DateIsUnique(a: Tm, b: Tm)
    requires InCalendar(a) && InCalendar(b) && SecondsSinceEpoch(a) == SecondsSinceEpoch(b)
    ensures a == b.(wday := a.wday)
  {
    OrderPreserved(a, b);
    OrderPreserved(b, a);
  }
}
