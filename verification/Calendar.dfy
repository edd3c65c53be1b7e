/** The Gregorian calendar as a reference, and `gmtime_r` (nut/crt/gmtime.c). */
module Calendar {
  const DAY_SEC: nat := 86400
  const YEAR_SEC: nat := 365 * DAY_SEC
  const FOUR_YEAR_SEC: nat := 1461 * DAY_SEC
  /** 1970-01-01 was a Thursday. */
  const BASE_DOW: nat := 4

  // ---- the calendar ----

  /** The Gregorian rule; years are counted from 1900. */
  predicate Leap(year: nat) { (year + 1900) % 4 == 0 && ((year + 1900) % 100 != 0 || (year + 1900) % 400 == 0) }

  function YearDays(year: nat): (d: nat) { if Leap(year) then 366 else 365 }

  function MonthDays(leap: bool, mon: nat): (d: nat)
    requires mon < 12
    ensures 28 <= d <= 31
  {
    match mon
    case 1 => if leap then 29 else 28
    case 3 => 30 case 5 => 30 case 8 => 30 case 10 => 30
    case _ => 31
  }

  /** Days of the year before a month; month 12 stands for the end of the year. */
  function DaysBefore(leap: bool, mon: nat): (d: nat)
    requires mon <= 12
  {
    if mon == 0 then 0 else DaysBefore(leap, mon - 1) + MonthDays(leap, mon - 1)
  }

  /** Days from 1970-01-01 to the first day of a year. */
  function EpochDays(year: nat): (d: nat)
    requires year >= 70
  {
    if year == 70 then 0 else EpochDays(year - 1) + YearDays(year - 1)
  }

  datatype Tm = Tm(sec: nat, min: nat, hour: nat, mday: nat, mon: nat, year: nat, wday: nat, yday: nat)

  /** All fields in range and consistent with each other. */
  predicate Proper(t: Tm)
  {
    && t.sec < 60 && t.min < 60 && t.hour < 24 && t.mon < 12 && t.year >= 70
    && 1 <= t.mday <= MonthDays(Leap(t.year), t.mon)
    && t.yday == DaysBefore(Leap(t.year), t.mon) + t.mday - 1
    && t.wday == (EpochDays(t.year) + t.yday + BASE_DOW) % 7
  }

  /** Calendar to seconds. */
  function Seconds(t: Tm): (s: nat)
    requires t.year >= 70
  {
    ((EpochDays(t.year) + t.yday) * 24 + t.hour) * 3600 + t.min * 60 + t.sec
  }

  // ---- four-year cycles ----

  /** Between 1970 and 2099 every fourth year is a leap year. */
  lemma FourthYear(year: nat)
    requires 70 <= year < 200
    ensures Leap(year) <==> year % 4 == 0
  {
  }

  /** Before 2100: 1461 days in four years. */
  lemma {:induction false} CycleDays(year: nat)
    requires 70 <= year <= 200
    ensures EpochDays(year) == (year - 70) * 365 + (year - 1) / 4 - 17
    decreases year
  {
    if year > 70 {
      CycleDays(year - 1);
      FourthYear(year - 1);
    }
  }

  lemma {:induction false} EpochDaysMonotone(a: nat, b: nat)
    requires 70 <= a <= b
    ensures EpochDays(a) <= EpochDays(b)
    decreases b
  {
    if a < b { EpochDaysMonotone(a, b - 1); }
  }

  /** The arrays `_lpdays` and `_days`: one less than the days before each month. */
  function MonthTable(leap: bool): (t: seq<int>)
    ensures |t| == 13
  {
    if leap then [-1, 30, 59, 90, 120, 151, 181, 212, 243, 273, 304, 334, 365]
    else [-1, 30, 58, 89, 119, 150, 180, 211, 242, 272, 303, 333, 364]
  }

  lemma {:induction false} MonthTableIs(leap: bool, i: nat)
    requires i <= 12
    ensures MonthTable(leap)[i] == DaysBefore(leap, i) - 1
  {
    if i > 0 {
      MonthTableIs(leap, i - 1);
      assert DaysBefore(leap, i) == DaysBefore(leap, i - 1) + MonthDays(leap, i - 1);
    }
  }

  lemma YearLength(leap: bool)
    ensures DaysBefore(leap, 12) == if leap then 366 else 365
  {
    MonthTableIs(leap, 12);
  }

  /** `gmtime_r`: for every time before 2100 the fields are proper and stand for the same second. */
  method GmTime(timer: nat) returns (t: Tm)
    requires timer < EpochDays(200) * DAY_SEC
    ensures Proper(t) && t.year < 200 && Seconds(t) == timer
  {
    var year, rest, leap := SplitYear(timer);
    var yday := rest / DAY_SEC;
    ghost var seconds := rest;
    rest := rest - yday * DAY_SEC;
    var mon := FindMonth(leap, yday);
    var mday := yday - MonthTable(leap)[mon];
    MonthTableIs(leap, mon);
    var wday := (timer / DAY_SEC + BASE_DOW) % 7;
    var hour := rest / 3600;
    rest := rest - hour * 3600;
    var min := rest / 60;
    var sec := rest - min * 60;
    t := Tm(sec, min, hour, mday, mon, year, wday, yday);
    assert timer / DAY_SEC == EpochDays(year) + yday;
  }

  /** The epoch: Thursday, 1 January 1970, 00:00:00. */
  lemma EpochIs()
    ensures Proper(Tm(0, 0, 0, 1, 0, 70, 4, 0)) && Seconds(Tm(0, 0, 0, 1, 0, 70, 4, 0)) == 0
  {
  }

  /** The Gregorian rule and the lengths of the months. */
  lemma CalendarIs(year: nat)
    ensures YearDays(year) == if ((year + 1900) % 4 == 0 && (year + 1900) % 100 != 0) || (year + 1900) % 400 == 0
                              then 366 else 365
    ensures forall leap :: MonthDays(leap, 0) == MonthDays(leap, 2) == MonthDays(leap, 4) == MonthDays(leap, 6) == 31
    ensures forall leap :: MonthDays(leap, 7) == MonthDays(leap, 9) == MonthDays(leap, 11) == 31
    ensures forall leap :: MonthDays(leap, 3) == MonthDays(leap, 5) == MonthDays(leap, 8) == MonthDays(leap, 10) == 30
    ensures MonthDays(false, 1) == 28 && MonthDays(true, 1) == 29
  {
  }

  /** The weekday advances with the day count from that Thursday. */
  lemma WeekdayIs(t: Tm)
    requires Proper(t)
    ensures t.wday == (Seconds(t) / 86400 + 4) % 7
  {
    hide EpochDays, Leap, MonthDays, DaysBefore;
    DayOf(EpochDays(t.year) + t.yday, t.hour, t.min, t.sec);
  }

  lemma DayOf(d: nat, hour: nat, min: nat, sec: nat)
    requires hour < 24 && min < 60 && sec < 60
    ensures ((d * 24 + hour) * 3600 + min * 60 + sec) / 86400 == d
  {
  }

  /** The year, by four-year intervals and then at most three steps. */
  method SplitYear(timer: nat) returns (year: nat, rest: nat, leap: bool)
    requires timer < EpochDays(200) * DAY_SEC
    ensures 70 <= year < 200 && leap == Leap(year) && rest < YearDays(year) * DAY_SEC
    ensures timer == EpochDays(year) * DAY_SEC + rest
  {
    hide EpochDays, Leap;
    LastDay();
    leap := false;
    var tmp := timer / FOUR_YEAR_SEC;
    rest := timer - tmp * FOUR_YEAR_SEC;
    ghost var q := tmp;
    assert q <= 32 && (q == 32 ==> rest < 2 * YEAR_SEC);
    CycleYears(q);
    tmp := tmp * 4 + 70;
    if rest >= YEAR_SEC {
      tmp := tmp + 1;
      rest := rest - YEAR_SEC;
      if rest >= YEAR_SEC {
        tmp := tmp + 1;
        rest := rest - YEAR_SEC;
        if rest >= YEAR_SEC + DAY_SEC {
          tmp := tmp + 1;
          rest := rest - (YEAR_SEC + DAY_SEC);
        } else {
          leap := true;
        }
      }
    }
    year := tmp;
    FourthYear(year);
  }

  lemma LastDay()
    ensures EpochDays(200) == 32 * 1461 + 730
  {
    CycleDays(200);
  }

  /** The years of a four-year interval; the third one is the leap year. */
  lemma CycleYears(q: nat)
    requires q <= 32
    ensures EpochDays(70 + 4 * q) == 1461 * q && EpochDays(71 + 4 * q) == 1461 * q + 365
    ensures q < 32 ==> EpochDays(72 + 4 * q) == 1461 * q + 730 && EpochDays(73 + 4 * q) == 1461 * q + 1096
  {
    CycleDays(70 + 4 * q);
    CycleDays(71 + 4 * q);
    if q < 32 {
      CycleDays(72 + 4 * q);
      CycleDays(73 + 4 * q);
    }
  }

  /** The scan for the month: the only one that contains the day. */
  method FindMonth(leap: bool, yday: nat) returns (mon: nat)
    requires yday < if leap then 366 else 365
    ensures mon < 12 && DaysBefore(leap, mon) <= yday < DaysBefore(leap, mon + 1)
  {
    YearLength(leap);
    var mdays := MonthTable(leap);
    var k := 1;
    MonthTableIs(leap, 0);
    MonthTableIs(leap, 1);
    MonthTableIs(leap, 12);
    while mdays[k] < yday
      invariant 1 <= k <= 12 && mdays[k - 1] < yday && mdays[k - 1] == DaysBefore(leap, k - 1) - 1
      invariant mdays[k] == DaysBefore(leap, k) - 1
      decreases 12 - k
    {
      assert k < 12;
      k := k + 1;
      MonthTableIs(leap, k);
    }
    mon := k - 1;
  }

  // ---- the inverse ----

  lemma {:induction false} DaysBeforeMonotone(leap: bool, a: nat, b: nat)
    requires a <= b <= 12
    ensures DaysBefore(leap, a) <= DaysBefore(leap, b)
    decreases b
  {
    if a < b { DaysBeforeMonotone(leap, a, b - 1); }
  }

  lemma YdayInYear(t: Tm)
    requires Proper(t)
    ensures t.yday < YearDays(t.year)
  {
    var leap := Leap(t.year);
    DaysBeforeMonotone(leap, t.mon + 1, 12);
    YearLength(leap);
  }

  /** The year and the day of the year are determined by the day count. */
  lemma SameDay(a: Tm, b: Tm)
    requires Proper(a) && Proper(b) && EpochDays(a.year) + a.yday == EpochDays(b.year) + b.yday
    ensures a.year == b.year && a.yday == b.yday
  {
    YdayInYear(a);
    YdayInYear(b);
    if a.year < b.year { EpochDaysMonotone(a.year + 1, b.year); }
    if b.year < a.year { EpochDaysMonotone(b.year + 1, a.year); }
  }

  lemma SameMonth(a: Tm, b: Tm)
    requires Proper(a) && Proper(b) && a.year == b.year && a.yday == b.yday
    ensures a.mon == b.mon && a.mday == b.mday
  {
    var leap := Leap(a.year);
    if a.mon < b.mon { DaysBeforeMonotone(leap, a.mon + 1, b.mon); }
    if b.mon < a.mon { DaysBeforeMonotone(leap, b.mon + 1, a.mon); }
  }

  /** Different proper dates are different seconds, so that `gmtime_r` is the inverse of the calendar. */
  lemma SecondsInjective(a: Tm, b: Tm)
    requires Proper(a) && Proper(b) && Seconds(a) == Seconds(b)
    ensures a == b
  {
    var da, db := EpochDays(a.year) + a.yday, EpochDays(b.year) + b.yday;
    assert da == db && a.hour == b.hour && a.min == b.min && a.sec == b.sec;
    SameDay(a, b);
    SameMonth(a, b);
  }

  /** Calendar to seconds and back gives the same fields. */
  method BackAndForth(t: Tm) returns (r: Tm)
    requires Proper(t) && t.year < 200
    ensures r == t
  {
    YdayInYear(t);
    EpochDaysMonotone(t.year + 1, 200);
    r := GmTime(Seconds(t));
    SecondsInjective(r, t);
  }
}
