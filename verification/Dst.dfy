/** Daylight saving time: `cvtdate` and `_isindst` with their cached transition dates (nut/crt/tzset.c). */
module Dst {
  import opened Calendar

  const DAY_MS: int := 86400000

  datatype Transition = Transition(yr: int, yd: int, ms: int)

  // ---- what the dates should be ----

  function Weekday(year: nat, yday: nat): (d: nat)
    requires year >= 70
  {
    (EpochDays(year) + yday + BASE_DOW) % 7
  }

  /** The day lies in the month; months are counted from 1 here. */
  ghost predicate InMonth(year: nat, month: nat, yday: int)
    requires 1 <= month <= 12
  {
    DaysBefore(Leap(year), month - 1) <= yday < DaysBefore(Leap(year), month)
  }

  /** yday is the n-th given weekday of the month, or for n == 5 the last one. */
  ghost predicate IsNth(year: nat, month: nat, week: nat, dayofweek: nat, yday: int)
    requires year >= 70 && 1 <= month <= 12
  {
    && yday >= 0 && InMonth(year, month, yday) && Weekday(year, yday) == dayofweek
    && if week == 5 then !InMonth(year, month, yday + 7)
       else DaysBefore(Leap(year), month - 1) + 7 * (week - 1) <= yday < DaysBefore(Leap(year), month - 1) + 7 * week
  }

  /** There is only one such day. */
  lemma NthUnique(year: nat, month: nat, week: nat, dayofweek: nat, a: int, b: int)
    requires year >= 70 && 1 <= month <= 12 && 1 <= week <= 5
    requires IsNth(year, month, week, dayofweek, a) && IsNth(year, month, week, dayofweek, b)
    ensures a == b
  {
    SameWeekday(EpochDays(year) + BASE_DOW, a, b);
  }

  lemma SameWeekday(base: nat, a: int, b: int)
    requires (base + a) % 7 == (base + b) % 7
    ensures (a - b) % 7 == 0
  {
  }

  // ---- cvtdate ----

  /** The day-in-month part of `cvtdate`. */
  method NthDay(year: nat, month: nat, week: nat, dayofweek: nat) returns (yearday: int)
    requires 70 <= year < 200 && 1 <= month <= 12 && 1 <= week <= 5 && dayofweek < 7
    ensures IsNth(year, month, week, dayofweek, yearday)
  {
    hide EpochDays, DaysBefore, Leap, MonthDays, MonthTable;
    var mdays := MonthTable(year % 4 == 0);
    FourthYear(year);
    MonthTableIs(Leap(year), month - 1);
    MonthTableIs(Leap(year), month);
    MonthStep(Leap(year), month);
    CycleDays(year);
    ghost var first := DaysBefore(Leap(year), month - 1);
    yearday := 1 + mdays[month - 1];
    var monthdow := (yearday + (year - 70) * 365 + (year - 1) / 4 - 17 + BASE_DOW) % 7;
    assert monthdow == Weekday(year, yearday);
    if monthdow <= dayofweek {
      yearday := yearday + (dayofweek - monthdow) + (week - 1) * 7;
    } else {
      yearday := yearday + (dayofweek - monthdow) + week * 7;
    }
    Shifted(EpochDays(year) + first + BASE_DOW, dayofweek, yearday - first, week);
    if week == 5 && yearday > mdays[month] {
      yearday := yearday - 7;
      Shifted(EpochDays(year) + first + BASE_DOW, dayofweek, yearday - first, week - 1);
    }
  }

  lemma MonthStep(leap: bool, month: nat)
    requires 1 <= month <= 12
    ensures DaysBefore(leap, month) == DaysBefore(leap, month - 1) + MonthDays(leap, month - 1)
  {
  }

  /** Stepping from the first of the month to a weekday of a given week. */
  lemma Shifted(base: nat, dayofweek: nat, offset: int, week: nat)
    requires dayofweek < 7 && week >= 1
    requires offset == (if base % 7 <= dayofweek then dayofweek - base % 7 + (week - 1) * 7
                        else dayofweek - base % 7 + week * 7)
    ensures 7 * (week - 1) <= offset < 7 * week && (base + offset) % 7 == dayofweek
  {
  }

  class Zone {
    var dststart: Transition
    var dstend: Transition
    const daylight: bool
    /** _dstbias, in seconds. */
    const dstbias: int

    constructor (daylight: bool, dstbias: int)
      requires -DAY_MS < dstbias * 1000 < DAY_MS
      ensures Valid() && this.daylight == daylight && this.dstbias == dstbias
    {
      dststart, dstend := Transition(-1, 0, 0), Transition(-1, 0, 0);
      this.daylight, this.dstbias := daylight, dstbias;
    }

    /** A cached date, once computed, is the right one for its year. */
    ghost predicate Valid()
      reads this
    {
      && -DAY_MS < dstbias * 1000 < DAY_MS
      && (dststart.yr != -1 ==> IsStart(dststart)) && (dstend.yr != -1 ==> IsEnd(dstend, dstbias))
    }

    /** `cvtdate(1, 1, year, 3, 5, 0, 0, 2, 0, 0, 0)`. */
    method ConvertStart(year: nat)
      requires Valid() && 70 <= year < 200
      modifies this`dststart
      ensures Valid() && dststart.yr == year
    {
      var yearday := NthDay(year, 3, 5, 0);
      dststart := Transition(year, yearday, 1000 * (60 * (60 * 2)));
    }

    /** `cvtdate(0, 1, year, 10, 5, 0, 0, 2, 0, 0, 0)`: the end of the period is brought from daylight
        saving time to standard time. */
    method ConvertEnd(year: nat)
      requires Valid() && 70 <= year < 200
      modifies this`dstend
      ensures Valid() && dstend.yr == year
    {
      var yd := NthDay(year, 10, 5, 0);
      var ms := 1000 * (60 * (60 * 2)) + dstbias * 1000;
      ghost var day := yd;
      if ms < 0 {
        ms, yd := ms + DAY_MS, yd - 1;
      } else if ms >= DAY_MS {
        ms, yd := ms - DAY_MS, yd + 1;
      }
      dstend := Transition(year, yd, ms);
      assert IsNth(year, 10, 5, 0, day) && EndAt(dstend, day, dstbias);
    }

    /** `_isindst`: whether the local time lies in the half-open interval from the start to the end of
        daylight saving time of its year. The answer depends on the argument alone, not on the cache. */
    method IsInDst(tb: Tm) returns (r: bool)
      requires Valid() && Proper(tb) && tb.year < 200
      modifies this`dststart, this`dstend
      ensures Valid()
      ensures r <==> daylight && InPeriod(tb, dstbias)
    {
      hide IsStart, IsEnd, EpochDays, DaysBefore;
      if !daylight { return false; }
      if tb.year != dststart.yr || tb.year != dstend.yr {
        ConvertStart(tb.year);
        ConvertEnd(tb.year);
      }
      PeriodIs(dststart, dstend, tb, dstbias);
      if dststart.yd < dstend.yd {
        if tb.yday < dststart.yd || tb.yday > dstend.yd { return false; }
        if tb.yday > dststart.yd && tb.yday < dstend.yd { return true; }
      } else {
        if tb.yday < dstend.yd || tb.yday > dststart.yd { return true; }
        if tb.yday > dstend.yd && tb.yday < dststart.yd { return false; }
      }
      var ms := 1000 * (tb.sec + 60 * tb.min + 3600 * tb.hour);
      if tb.yday == dststart.yd { return ms >= dststart.ms; } else { return ms < dstend.ms; }
    }
  }

  const TWO_AM: int := 7200000

  ghost predicate IsStart(t: Transition)
  {
    70 <= t.yr < 200 && IsNth(t.yr, 3, 5, 0, t.yd) && t.ms == TWO_AM
  }

  /** The transition is two o'clock of that day, shifted by the bias, as a day and a time of day. */
  ghost predicate EndAt(t: Transition, day: int, bias: int)
  {
    t.yd * DAY_MS + t.ms == day * DAY_MS + TWO_AM + bias * 1000 && 0 <= t.ms < DAY_MS
  }

  ghost predicate IsEnd(t: Transition, bias: int)
  {
    70 <= t.yr < 200 && exists day :: IsNth(t.yr, 10, 5, 0, day) && EndAt(t, day, bias)
  }

  /** Milliseconds since the start of the year. */
  function YearMs(t: Tm): (ms: int) { t.yday * DAY_MS + 1000 * (t.sec + 60 * t.min + 3600 * t.hour) }

  /** From two o'clock on the last Sunday of March to two o'clock daylight saving time on the last Sunday
      of October. */
  ghost predicate InPeriod(t: Tm, bias: int)
    requires 70 <= t.year < 200
  {
    exists start, end ::
      && IsNth(t.year, 3, 5, 0, start) && IsNth(t.year, 10, 5, 0, end)
      && start * DAY_MS + TWO_AM <= YearMs(t) < end * DAY_MS + TWO_AM + bias * 1000
  }

  /** March comes long before October. */
  lemma MonthsApart(year: nat, start: int, end: int)
    requires year >= 70 && IsNth(year, 3, 5, 0, start) && IsNth(year, 10, 5, 0, end)
    ensures start + 100 < end
  {
    hide EpochDays;
    MonthTableIs(Leap(year), 3);
    MonthTableIs(Leap(year), 9);
  }

  lemma PeriodIs(s: Transition, e: Transition, t: Tm, bias: int)
    requires IsStart(s) && IsEnd(e, bias) && s.yr == t.year == e.yr && Proper(t) && -DAY_MS < bias * 1000 < DAY_MS
    ensures s.yd < e.yd && 0 <= s.ms < DAY_MS && 0 <= e.ms < DAY_MS
    ensures 0 <= 1000 * (t.sec + 60 * t.min + 3600 * t.hour) < DAY_MS
    ensures InPeriod(t, bias) <==> s.yd * DAY_MS + s.ms <= YearMs(t) < e.yd * DAY_MS + e.ms
  {
    hide IsNth, EpochDays, DaysBefore;
    var day :| IsNth(e.yr, 10, 5, 0, day) && EndAt(e, day, bias);
    MonthsApart(t.year, s.yd, day);
    if InPeriod(t, bias) {
      var start, end :|
        && IsNth(t.year, 3, 5, 0, start) && IsNth(t.year, 10, 5, 0, end)
        && start * DAY_MS + TWO_AM <= YearMs(t) < end * DAY_MS + TWO_AM + bias * 1000;
      NthUnique(t.year, 3, 5, 0, start, s.yd);
      NthUnique(t.year, 10, 5, 0, end, day);
    }
  }

  /** Two zones with the same settings give the same answers, whatever they were asked before. */
  method SameAnswer(a: Zone, b: Zone, tb: Tm) returns (same: bool)
    requires a.Valid() && b.Valid() && a != b && a.daylight == b.daylight && a.dstbias == b.dstbias
    requires Proper(tb) && tb.year < 200
    modifies a, b
    ensures same
  {
    var x := a.IsInDst(tb);
    var y := b.IsInDst(tb);
    same := x == y;
  }

  /** The transitions of 2005: Sunday, 27 March, day 85, and Sunday, 30 October, day 302, both at 02:00:00. */
  lemma Transitions2005()
    ensures IsNth(105, 3, 5, 0, 85) && IsNth(105, 10, 5, 0, 302) && TWO_AM == 2 * 60 * 60 * 1000
  {
    hide EpochDays, DaysBefore;
    CycleDays(105);
    MonthTableIs(false, 2);
    MonthTableIs(false, 3);
    MonthTableIs(false, 9);
    MonthTableIs(false, 10);
  }

  /** With a bias of minus one hour the second before is outside and the second itself inside, at both ends. */
  lemma Period2005(t: Tm)
    requires t.year == 105
    ensures InPeriod(t, -3600) <==> 85 * 86400000 + 7200000 <= YearMs(t) < 302 * 86400000 + 3600000
  {
    hide IsNth, EpochDays, DaysBefore;
    Transitions2005();
    forall day | IsNth(105, 3, 5, 0, day)
      ensures day == 85
    {
      NthUnique(105, 3, 5, 0, day, 85);
    }
    forall day | IsNth(105, 10, 5, 0, day)
      ensures day == 302
    {
      NthUnique(105, 10, 5, 0, day, 302);
    }
  }
}
