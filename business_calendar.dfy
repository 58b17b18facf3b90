/**
  The business calendar: a daily working window [work start, work end) that
  applies Monday to Friday, and a finite set of holiday dates.

  Dates are day numbers (see CivilDate); a timestamp is a day number and a
  second of that day. The reference measure of this module, WorkingSeconds,
  counts the seconds of an interval that fall inside some working day's window.
  The resolver's day-by-day loop is proved against it.
 */
module BusinessCalendar {

  const SecondsPerDay: int := 86400

  /** A time of day with minute resolution, as the app's time pickers give it. */
  type Minute = m: int | 0 <= m < 1440

  type SecondOfDay = s: int | 0 <= s < SecondsPerDay

  /** A naive local timestamp. Python's datetimes here never carry microseconds. */
  datatype DateTime = DateTime(day: int, sec: SecondOfDay)

  /** Seconds since the start of day 0. Ordering instants orders timestamps. */
  function Instant(t: DateTime): int {
    t.day * SecondsPerDay + t.sec
  }

  /** Python's `date.weekday()` for a day number: Monday is 0, Sunday is 6. */
  function Weekday(d: int): (w: int)
    ensures 0 <= w < 7
  {
    (d + 6) % 7
  }

  lemma WeekdayNext(d: int)
    ensures Weekday(d + 1) == (Weekday(d) + 1) % 7
  {
  }

  datatype Calendar = Calendar(workStart: Minute, workEnd: Minute, holidays: set<int>)

  /** The working window is non-empty. */
  predicate WellFormed(cal: Calendar) {
    cal.workStart < cal.workEnd
  }

  function StartSec(cal: Calendar): (s: int)
    ensures 0 <= s < SecondsPerDay - 59 && s % 60 == 0
  {
    cal.workStart * 60
  }

  function EndSec(cal: Calendar): (s: int)
    ensures 0 <= s < SecondsPerDay - 59 && s % 60 == 0
  {
    cal.workEnd * 60
  }

  /** The length of the daily window in seconds; negative or zero for a degenerate calendar. */
  function WindowSeconds(cal: Calendar): (w: int)
    ensures WellFormed(cal) <==> w > 0
    ensures WellFormed(cal) ==> w >= 60
  {
    EndSec(cal) - StartSec(cal)
  }

  /** A weekday that is not a holiday. */
  predicate IsWorkingDay(cal: Calendar, d: int) {
    Weekday(d) < 5 && d !in cal.holidays
  }

  function DayStart(cal: Calendar, d: int): int {
    d * SecondsPerDay + StartSec(cal)
  }

  function DayEnd(cal: Calendar, d: int): int {
    d * SecondsPerDay + EndSec(cal)
  }

  function Min(a: int, b: int): int { if a <= b then a else b }

  function Max(a: int, b: int): int { if a <= b then b else a }

  /** Seconds of the instant interval [x, y) inside the window of day `d`. */
  function Overlap(cal: Calendar, d: int, x: int, y: int): (r: int)
    ensures r >= 0
    ensures r <= y - x || r == 0
    ensures !IsWorkingDay(cal, d) ==> r == 0
    ensures r <= WindowSeconds(cal) || r == 0
    ensures WellFormed(cal) && IsWorkingDay(cal, d) && x <= DayStart(cal, d) && DayEnd(cal, d) <= y ==> r == WindowSeconds(cal)
  {
    if IsWorkingDay(cal, d) then Max(0, Min(y, DayEnd(cal, d)) - Max(x, DayStart(cal, d))) else 0
  }

  /** The working seconds of [x, y) that fall on days lo .. hi - 1. */
  function WorkDays(cal: Calendar, lo: int, hi: int, x: int, y: int): (r: int)
    ensures r >= 0
    decreases hi - lo
  {
    if lo >= hi then 0 else Overlap(cal, lo, x, y) + WorkDays(cal, lo + 1, hi, x, y)
  }

  /**
    The working seconds between two timestamps: the part of [a, b) that lies in
    the window of some working day. Days outside a.day .. b.day cannot contribute.
   */
  function WorkingSeconds(cal: Calendar, a: DateTime, b: DateTime): int {
    WorkDays(cal, a.day, b.day + 1, Instant(a), Instant(b))
  }

  /** No working day's window meets the instant interval [x, y). */
  ghost predicate NoWorkIn(cal: Calendar, x: int, y: int) {
    forall d :: Overlap(cal, d, x, y) == 0
  }

  /** Two adjacent stretches without work make one. */
  lemma NoWorkJoin(cal: Calendar, x: int, y: int, z: int)
    requires x <= y <= z && NoWorkIn(cal, x, y) && NoWorkIn(cal, y, z)
    ensures NoWorkIn(cal, x, z)
  {
    forall d ensures Overlap(cal, d, x, z) == 0 {
      assert Overlap(cal, d, x, y) == 0 && Overlap(cal, d, y, z) == 0;
    }
  }

  /** From a time on a non-working day, or at or after work end, to the next day's work start. */
  lemma NoWorkUntilNextDay(cal: Calendar, t: DateTime)
    requires !IsWorkingDay(cal, t.day) || t.sec >= EndSec(cal)
    ensures NoWorkIn(cal, Instant(t), DayStart(cal, t.day + 1))
  {
    var y := DayStart(cal, t.day + 1);
    forall d ensures Overlap(cal, d, Instant(t), y) == 0 {
      if d < t.day {
        assert DayEnd(cal, d) <= Instant(t);
      } else if d > t.day {
        assert y <= DayStart(cal, d);
      }
    }
  }

  /** From a time at or before work start to that day's work start. */
  lemma NoWorkUntilDayStart(cal: Calendar, t: DateTime)
    requires t.sec <= StartSec(cal)
    ensures NoWorkIn(cal, Instant(t), DayStart(cal, t.day))
  {
    forall d ensures Overlap(cal, d, Instant(t), DayStart(cal, t.day)) == 0 {
      if d < t.day {
        assert DayEnd(cal, d) <= Instant(t);
      } else {
        assert DayStart(cal, t.day) <= DayStart(cal, d);
      }
    }
  }

  /** From the previous day's work end to a time on a non-working day, or at or before work start. */
  lemma NoWorkSincePreviousDay(cal: Calendar, t: DateTime)
    requires !IsWorkingDay(cal, t.day) || t.sec <= StartSec(cal)
    ensures NoWorkIn(cal, DayEnd(cal, t.day - 1), Instant(t))
  {
    var x := DayEnd(cal, t.day - 1);
    forall d ensures Overlap(cal, d, x, Instant(t)) == 0 {
      if d < t.day {
        assert DayEnd(cal, d) <= x;
      } else if d > t.day {
        assert Instant(t) <= DayStart(cal, d);
      }
    }
  }

  /** From that day's work end to a time at or after work end. */
  lemma NoWorkSinceDayEnd(cal: Calendar, t: DateTime)
    requires t.sec >= EndSec(cal)
    ensures NoWorkIn(cal, DayEnd(cal, t.day), Instant(t))
  {
    forall d ensures Overlap(cal, d, DayEnd(cal, t.day), Instant(t)) == 0 {
      if d <= t.day {
        assert DayEnd(cal, d) <= DayEnd(cal, t.day);
      } else {
        assert Instant(t) <= DayStart(cal, d);
      }
    }
  }

  /** Moving the start of an interval across time that holds no work changes no day's share. */
  lemma OverlapShiftStart(cal: Calendar, d: int, x: int, x': int, y: int)
    requires x <= x' && Overlap(cal, d, x, x') == 0
    ensures Overlap(cal, d, x, y) == Overlap(cal, d, x', y)
  {
  }

  /** Moving the end of an interval back across time that holds no work changes no day's share. */
  lemma OverlapShiftEnd(cal: Calendar, d: int, x: int, y': int, y: int)
    requires y' <= y && Overlap(cal, d, y', y) == 0
    ensures Overlap(cal, d, x, y) == Overlap(cal, d, x, y')
  {
  }

  lemma {:induction false} WorkDaysSplit(cal: Calendar, lo: int, mid: int, hi: int, x: int, y: int)
    requires lo <= mid <= hi
    ensures WorkDays(cal, lo, hi, x, y) == WorkDays(cal, lo, mid, x, y) + WorkDays(cal, mid, hi, x, y)
    decreases mid - lo
  {
    if lo < mid {
      WorkDaysSplit(cal, lo + 1, mid, hi, x, y);
    }
  }

  lemma {:induction false} WorkDaysZero(cal: Calendar, lo: int, hi: int, x: int, y: int)
    requires forall d :: lo <= d < hi ==> Overlap(cal, d, x, y) == 0
    ensures WorkDays(cal, lo, hi, x, y) == 0
    decreases hi - lo
  {
    if lo < hi {
      WorkDaysZero(cal, lo + 1, hi, x, y);
    }
  }

  lemma {:induction false} WorkDaysCongruent(cal: Calendar, lo: int, hi: int, x: int, y: int, x': int, y': int)
    requires forall d :: lo <= d < hi ==> Overlap(cal, d, x, y) == Overlap(cal, d, x', y')
    ensures WorkDays(cal, lo, hi, x, y) == WorkDays(cal, lo, hi, x', y')
    decreases hi - lo
  {
    if lo < hi {
      WorkDaysCongruent(cal, lo + 1, hi, x, y, x', y');
    }
  }

  /** Cutting stretches without work off both ends of an interval leaves its working time as it was. */
  lemma WorkDaysTrim(cal: Calendar, lo: int, hi: int, x: int, x': int, y': int, y: int)
    requires x <= x' && NoWorkIn(cal, x, x')
    requires y' <= y && NoWorkIn(cal, y', y)
    ensures WorkDays(cal, lo, hi, x, y) == WorkDays(cal, lo, hi, x', y')
  {
    forall d ensures Overlap(cal, d, x, y) == Overlap(cal, d, x', y') {
      assert Overlap(cal, d, x, x') == 0;
      assert Overlap(cal, d, y', y) == 0;
      OverlapShiftStart(cal, d, x, x', y);
      OverlapShiftEnd(cal, d, x', y', y);
    }
    WorkDaysCongruent(cal, lo, hi, x, y, x', y');
  }

  /** An empty or reversed interval holds no working time. */
  lemma WorkDaysEmpty(cal: Calendar, lo: int, hi: int, x: int, y: int)
    requires y <= x
    ensures WorkDays(cal, lo, hi, x, y) == 0
  {
    WorkDaysZero(cal, lo, hi, x, y);
  }

  /** Summing over a wider range of days than a.day .. b.day changes nothing. */
  lemma WorkingSecondsOverRange(cal: Calendar, a: DateTime, b: DateTime, lo: int, hi: int)
    requires WellFormed(cal)
    requires lo <= a.day && b.day < hi && a.day <= b.day
    ensures WorkDays(cal, lo, hi, Instant(a), Instant(b)) == WorkingSeconds(cal, a, b)
  {
    var x, y := Instant(a), Instant(b);
    WorkDaysSplit(cal, lo, a.day, hi, x, y);
    WorkDaysSplit(cal, a.day, b.day + 1, hi, x, y);
    WorkDaysZero(cal, lo, a.day, x, y);
    WorkDaysZero(cal, b.day + 1, hi, x, y);
  }

  /**
    Making one more date a holiday takes away exactly that day's working
    seconds, and nothing else.
   */
  lemma {:induction false} WorkDaysAddHoliday(cal: Calendar, h: int, lo: int, hi: int, x: int, y: int)
    requires lo <= h < hi
    ensures var cal' := cal.(holidays := cal.holidays + {h});
      WorkDays(cal', lo, hi, x, y) == WorkDays(cal, lo, hi, x, y) - Overlap(cal, h, x, y)
    decreases hi - lo
  {
    var cal' := cal.(holidays := cal.holidays + {h});
    if lo == h {
      assert Overlap(cal', h, x, y) == 0;
      forall d | lo + 1 <= d < hi
        ensures Overlap(cal', d, x, y) == Overlap(cal, d, x, y)
      {
        OverlapOtherHoliday(cal, h, d, x, y);
      }
      CalendarsAgree(cal, cal', lo + 1, hi, x, y);
    } else {
      WorkDaysAddHoliday(cal, h, lo + 1, hi, x, y);
      OverlapOtherHoliday(cal, h, lo, x, y);
    }
  }

  /** A new holiday on another date leaves a day's working seconds alone. */
  lemma OverlapOtherHoliday(cal: Calendar, h: int, d: int, x: int, y: int)
    requires d != h
    ensures Overlap(cal.(holidays := cal.holidays + {h}), d, x, y) == Overlap(cal, d, x, y)
  {
    assert IsWorkingDay(cal.(holidays := cal.holidays + {h}), d) == IsWorkingDay(cal, d);
  }

  /** Two calendars whose overlaps agree day by day give the same sum. */
  lemma {:induction false} CalendarsAgree(cal: Calendar, cal': Calendar, lo: int, hi: int, x: int, y: int)
    requires forall d :: lo <= d < hi ==> Overlap(cal', d, x, y) == Overlap(cal, d, x, y)
    ensures WorkDays(cal', lo, hi, x, y) == WorkDays(cal, lo, hi, x, y)
    decreases hi - lo
  {
    if lo < hi {
      CalendarsAgree(cal, cal', lo + 1, hi, x, y);
    }
  }
}
