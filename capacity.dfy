/**
  Available capacity (app.py, `calculate_total_working_hours`): the working
  hours in an inclusive range of dates, counting one full working window for
  every weekday that is not a holiday.
 */
module Capacity {
  import opened Wrappers
  import opened BusinessCalendar

  /** The length of the working window in hours; zero or negative for a degenerate calendar (app.py:137). */
  function HoursPerDay(cal: Calendar): (h: real)
    ensures WellFormed(cal) <==> h > 0.0
  {
    (cal.workEnd - cal.workStart) as real / 60.0
  }

  /** The working days among the dates first .. last, both included. */
  function CountWorkingDays(cal: Calendar, first: int, last: int): (n: nat)
    ensures n <= if first <= last then last - first + 1 else 0
    decreases last - first
  {
    if first > last then 0
    else (if IsWorkingDay(cal, first) then 1 else 0) + CountWorkingDays(cal, first + 1, last)
  }

  /** `h` added up `n` times, as the loop of app.py:140-143 adds it. */
  function Repeat(n: nat, h: real): (r: real)
    ensures h >= 0.0 ==> r >= 0.0
  {
    if n == 0 then 0.0 else Repeat(n - 1, h) + h
  }

  /** The hours `calculate_total_working_hours` returns, in exact arithmetic (app.py:135-144). */
  function AvailableHours(cal: Calendar, startDate: Option<int>, endDate: Option<int>): (r: real)
    ensures r >= 0.0
    ensures !WellFormed(cal) || startDate.None? || endDate.None? ==> r == 0.0
    ensures startDate.Some? && endDate.Some? && endDate.value < startDate.value ==> r == 0.0
  {
    var h := HoursPerDay(cal);
    if h <= 0.0 || endDate.None? || startDate.None? || endDate.value < startDate.value then 0.0
    else Repeat(CountWorkingDays(cal, startDate.value, endDate.value), h)
  }

  /** Extending the range by one date adds that date when it is a working day. */
  lemma {:induction false} CountExtends(cal: Calendar, first: int, last: int)
    requires first <= last + 1
    ensures CountWorkingDays(cal, first, last + 1)
            == CountWorkingDays(cal, first, last) + (if IsWorkingDay(cal, last + 1) then 1 else 0)
    decreases last - first
  {
    if first <= last {
      CountExtends(cal, first + 1, last);
    }
  }

  /** The loop of app.py:140-143. */
  method CalculateTotalWorkingHours(startDate: Option<int>, endDate: Option<int>, cal: Calendar) returns (total: real)
    ensures total == AvailableHours(cal, startDate, endDate)
  {
    var hoursPerDay := HoursPerDay(cal);
    if hoursPerDay <= 0.0 || endDate.None? || startDate.None? || endDate.value < startDate.value {
      return 0.0;
    }
    var first, last := startDate.value, endDate.value;
    total := 0.0;
    var current := first;
    while current <= last
      invariant first <= current <= last + 1
      invariant total == Repeat(CountWorkingDays(cal, first, current - 1), hoursPerDay)
      decreases last - current
    {
      CountExtends(cal, first, current - 1);
      if Weekday(current) < 5 && current !in cal.holidays {
        total := total + hoursPerDay;
      }
      current := current + 1;
    }
  }

  // ---------------------------------------------------------------------------
  // Properties

  /** Counting over more dates never counts fewer working days. */
  lemma {:induction false} CountMonotone(cal: Calendar, first: int, last: int, last': int)
    requires last <= last'
    ensures CountWorkingDays(cal, first, last) <= CountWorkingDays(cal, first, last')
    decreases last' - last
  {
    if last < last' {
      CountMonotone(cal, first, last, last' - 1);
      if first <= last' {
        CountExtends(cal, first, last' - 1);
      }
    }
  }

  /** Adding `h` up `n` times is multiplying by `n`: capacity is working days times hours per day. */
  lemma {:induction false} RepeatIsProduct(n: nat, h: real)
    ensures Repeat(n, h) == n as real * h
  {
    if n > 0 {
      RepeatIsProduct(n - 1, h);
      assert (n - 1) as real * h + h == n as real * h;
    }
  }

  /** Adding a non-negative amount more times never gives less. */
  lemma {:induction false} RepeatMonotone(n: nat, n': nat, h: real)
    requires n <= n' && h >= 0.0
    ensures Repeat(n, h) <= Repeat(n', h)
    decreases n' - n
  {
    if n < n' {
      RepeatMonotone(n, n' - 1, h);
    }
  }

  /** A later end date never gives less capacity. */
  lemma AvailableHoursMonotone(cal: Calendar, first: int, last: int, last': int)
    requires last <= last'
    ensures AvailableHours(cal, Some(first), Some(last)) <= AvailableHours(cal, Some(first), Some(last'))
  {
    if HoursPerDay(cal) > 0.0 && first <= last {
      CountMonotone(cal, first, last, last');
      RepeatMonotone(CountWorkingDays(cal, first, last), CountWorkingDays(cal, first, last'), HoursPerDay(cal));
    }
  }

  /** The weekdays among `n` consecutive dates, the first of which has weekday `w`. */
  function WeekdaysAmong(w: int, n: nat): (r: nat)
    ensures r <= n
    decreases n
  {
    if n == 0 then 0 else (if w < 5 then 1 else 0) + WeekdaysAmong(if w == 6 then 0 else w + 1, n - 1)
  }

  /** Without holidays, the working days of a range are its weekdays. */
  lemma {:induction false} CountWithoutHolidays(cal: Calendar, first: int, n: nat)
    requires forall d :: first <= d < first + n ==> d !in cal.holidays
    ensures CountWorkingDays(cal, first, first + n - 1) == WeekdaysAmong(Weekday(first), n)
    decreases n
  {
    if n > 0 {
      CountWithoutHolidays(cal, first + 1, n - 1);
      WeekdayNext(first);
    }
  }

  /** Whatever day a week starts on, five of its seven days are weekdays. */
  lemma SevenDaysFiveWeekdays(w: int)
    requires 0 <= w < 7
    ensures WeekdaysAmong(w, 7) == 5
  {
    if w == 0 { assert WeekdaysAmong(0, 7) == 5; }
    else if w == 1 { assert WeekdaysAmong(1, 7) == 5; }
    else if w == 2 { assert WeekdaysAmong(2, 7) == 5; }
    else if w == 3 { assert WeekdaysAmong(3, 7) == 5; }
    else if w == 4 { assert WeekdaysAmong(4, 7) == 5; }
    else if w == 5 { assert WeekdaysAmong(5, 7) == 5; }
    else { assert WeekdaysAmong(6, 7) == 5; }
  }

  /** Every seven consecutive dates hold five working days when none of them is a holiday. */
  lemma WeekHasFiveWorkingDays(cal: Calendar, first: int)
    requires forall d :: first <= d <= first + 6 ==> d !in cal.holidays
    ensures CountWorkingDays(cal, first, first + 6) == 5
  {
    CountWithoutHolidays(cal, first, 7);
    SevenDaysFiveWeekdays(Weekday(first));
  }

  /** Over days whose windows lie wholly inside [x, y), the working seconds are a window per working day. */
  lemma {:induction false} FullDaysMeasure(cal: Calendar, first: int, last: int, x: int, y: int)
    requires WellFormed(cal) && x <= DayStart(cal, first) && DayEnd(cal, last) <= y
    ensures WorkDays(cal, first, last + 1, x, y) == CountWorkingDays(cal, first, last) * WindowSeconds(cal)
    decreases last - first
  {
    if first <= last {
      DayOrder(cal, first, last);
      FullDaysMeasure(cal, first + 1, last, x, y);
      var one := if IsWorkingDay(cal, first) then 1 else 0;
      assert Overlap(cal, first, x, y) == one * WindowSeconds(cal);
      Distribute(one, CountWorkingDays(cal, first + 1, last), WindowSeconds(cal));
    }
  }

  lemma Distribute(a: int, b: int, w: int)
    ensures (a + b) * w == a * w + b * w
  {
  }

  /** A later day's window starts and ends later. */
  lemma DayOrder(cal: Calendar, d: int, d': int)
    requires d <= d'
    ensures DayStart(cal, d) <= DayStart(cal, d + 1) && DayEnd(cal, d) <= DayEnd(cal, d')
  {
    var k := d' - d;
    assert d' * SecondsPerDay == d * SecondsPerDay + k * SecondsPerDay;
  }

  /** `n` working days of `h` hours each hold `n` windows of seconds. */
  lemma {:induction false} RepeatInSeconds(n: nat, h: real, window: int)
    requires h * 3600.0 == window as real
    ensures Repeat(n, h) * 3600.0 == (n * window) as real
  {
    if n > 0 {
      RepeatInSeconds(n - 1, h, window);
      assert (n * window) == (n - 1) * window + window;
    }
  }

  /**
    Capacity agrees with the working-time measure of the resolver: the hours of
    the dates first .. last are the working seconds from the first date's
    midnight to the midnight after the last date.
   */
  lemma CapacityIsWorkingTime(cal: Calendar, first: int, last: int)
    requires WellFormed(cal) && first <= last
    ensures AvailableHours(cal, Some(first), Some(last)) * 3600.0
            == WorkingSeconds(cal, DateTime(first, 0), DateTime(last + 1, 0)) as real
  {
    var x, y := Instant(DateTime(first, 0)), Instant(DateTime(last + 1, 0));
    WorkDaysSplit(cal, first, last + 1, last + 2, x, y);
    WorkDaysZero(cal, last + 1, last + 2, x, y);
    FullDaysMeasure(cal, first, last, x, y);
    RepeatInSeconds(CountWorkingDays(cal, first, last), HoursPerDay(cal), WindowSeconds(cal));
  }
}
