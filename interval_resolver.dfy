/**
  The interval resolver: the working time between two timestamps, measured in
  working days (app.py, `calculate_working_days`).

  The source snaps the start forward and the end backward onto working time,
  then walks the days in between and adds up each working day's share. Several
  of its steps set only the hour and the minute of a timestamp and so keep its
  seconds. SecondsRule makes that explicit. CarrySeconds is the code as written.
  ZeroSeconds sets the seconds to zero at the same steps. The methods and the
  specification functions take the rule as a parameter, so one proof covers
  both; only ZeroSeconds measures working time exactly for every input.
 */
module IntervalResolver {
  import opened BusinessCalendar
  import TimestampParser

  datatype SecondsRule = CarrySeconds | ZeroSeconds

  /**
    The seconds that survive `.replace(hour=h, minute=m)` under the rule.
    Work start and end are whole minutes, so they add no seconds of their own.
   */
  function Kept(rule: SecondsRule, sec: int): (k: int)
    ensures 0 <= k < 60
    ensures rule == ZeroSeconds ==> k == 0
  {
    if rule == CarrySeconds then sec % 60 else 0
  }

  /** `(t + timedelta(days=1)).replace(hour=..., minute=...)` at work start (app.py:106, app.py:130). */
  function NextDayAtStart(cal: Calendar, rule: SecondsRule, t: DateTime): (r: DateTime)
    ensures r.day == t.day + 1
    ensures StartSec(cal) <= r.sec < StartSec(cal) + 60
    ensures rule == ZeroSeconds ==> r.sec == StartSec(cal)
  {
    DateTime(t.day + 1, StartSec(cal) + Kept(rule, t.sec))
  }

  // ---------------------------------------------------------------------------
  // Termination of the snap loops

  /** The holidays on or after day `d`: the start snap can still meet these. */
  function HolidaysFrom(h: set<int>, d: int): set<int> {
    set x | x in h && x >= d
  }

  /** The holidays on or before day `d`: the end snap can still meet these. */
  function HolidaysUpTo(h: set<int>, d: int): set<int> {
    set x | x in h && x <= d
  }

  lemma HolidaysFromStep(h: set<int>, d: int)
    ensures d in h ==> |HolidaysFrom(h, d + 1)| < |HolidaysFrom(h, d)|
    ensures d !in h ==> HolidaysFrom(h, d + 1) == HolidaysFrom(h, d)
  {
    if d in h {
      assert HolidaysFrom(h, d + 1) == HolidaysFrom(h, d) - {d};
    }
  }

  lemma HolidaysUpToStep(h: set<int>, d: int)
    ensures d in h ==> |HolidaysUpTo(h, d - 1)| < |HolidaysUpTo(h, d)|
    ensures d !in h ==> HolidaysUpTo(h, d - 1) == HolidaysUpTo(h, d)
  {
    if d in h {
      assert HolidaysUpTo(h, d - 1) == HolidaysUpTo(h, d) - {d};
    }
  }

  /** Days from a weekend day forward to Monday; 0 on a weekday. */
  function DaysToMonday(d: int): nat {
    if Weekday(d) == 5 then 2 else if Weekday(d) == 6 then 1 else 0
  }

  /** Days from a weekend day back to Friday; 0 on a weekday. */
  function DaysToFriday(d: int): nat {
    if Weekday(d) == 6 then 2 else if Weekday(d) == 5 then 1 else 0
  }

  /**
    Past its last holiday the start snap has at most a weekend (two days) and
    one late start (one day) left. Together with the number of holidays still
    ahead, this rank makes every pass of the snap loop progress.
   */
  function StartRank(cal: Calendar, t: DateTime): nat {
    (if t.sec >= EndSec(cal) then 10 else 0) + DaysToMonday(t.day)
  }

  /** The mirror image of StartRank for the end snap. */
  function EndRank(cal: Calendar, t: DateTime): nat {
    (if t.sec <= StartSec(cal) then 10 else 0) + DaysToFriday(t.day)
  }

  // ---------------------------------------------------------------------------
  // Snapping

  /**
    The start snap (app.py:99-108): skip holidays and weekends, lift a time
    before work start to work start, push a time at or after work end to the
    next day, and check the new day again.
   */
  function SnapStart(cal: Calendar, rule: SecondsRule, t: DateTime): (r: DateTime)
    requires WellFormed(cal)
    ensures IsWorkingDay(cal, r.day)
    ensures StartSec(cal) <= r.sec < EndSec(cal)
    ensures Instant(t) <= Instant(r)
    ensures t.day <= r.day
    decreases |HolidaysFrom(cal.holidays, t.day)|, StartRank(cal, t)
  {
    WeekdayNext(t.day);
    HolidaysFromStep(cal.holidays, t.day);
    if !IsWorkingDay(cal, t.day) then
      SnapStart(cal, rule, DateTime(t.day + 1, StartSec(cal)))
    else if t.sec < StartSec(cal) then
      DateTime(t.day, StartSec(cal) + Kept(rule, t.sec))
    else if t.sec >= EndSec(cal) then
      SnapStart(cal, rule, NextDayAtStart(cal, rule, t))
    else
      t
  }

  /**
    The end snap (app.py:110-119): skip holidays and weekends backwards, pull a
    time after work end down to work end, move a time at or before work start
    to the previous day's work end, and check the new day again. Under
    CarrySeconds the result may lie up to 59 seconds past work end.
   */
  function SnapEnd(cal: Calendar, rule: SecondsRule, t: DateTime): (r: DateTime)
    requires WellFormed(cal)
    ensures IsWorkingDay(cal, r.day)
    ensures StartSec(cal) < r.sec <= EndSec(cal) + Kept(rule, t.sec)
    ensures Instant(r) <= Instant(t)
    ensures r.day <= t.day
    decreases |HolidaysUpTo(cal.holidays, t.day)|, EndRank(cal, t)
  {
    WeekdayNext(t.day - 1);
    HolidaysUpToStep(cal.holidays, t.day);
    if !IsWorkingDay(cal, t.day) then
      SnapEnd(cal, rule, DateTime(t.day - 1, EndSec(cal)))
    else if t.sec > EndSec(cal) then
      DateTime(t.day, EndSec(cal) + Kept(rule, t.sec))
    else if t.sec <= StartSec(cal) then
      SnapEnd(cal, rule, DateTime(t.day - 1, EndSec(cal) + Kept(rule, t.sec)))
    else
      t
  }

  // ---------------------------------------------------------------------------
  // Summation

  /**
    The day walk (app.py:123-130): from the cursor up to `e`, each working day
    adds `min(e, day end) - max(cursor, day start)`, then the cursor moves to
    the next day's work start.
   */
  function SumFrom(cal: Calendar, rule: SecondsRule, cur: DateTime, e: DateTime): int
    decreases e.day - cur.day
  {
    if Instant(cur) >= Instant(e) then 0
    else
      (if IsWorkingDay(cal, cur.day)
       then Min(Instant(e), DayEnd(cal, cur.day)) - Max(Instant(cur), DayStart(cal, cur.day))
       else 0)
      + SumFrom(cal, rule, NextDayAtStart(cal, rule, cur), e)
  }

  /** What a cell of the ticket sheet holds: nothing (pandas NaN) or a value, as text. */
  datatype Cell = Missing | Text(text: string)

  /** A resolution time in working days, or NaN when it cannot be computed. */
  datatype Duration = Undefined | Days(value: real)

  /** The resolution time of two parsed timestamps (app.py:97-133). */
  function ResolveParsed(cal: Calendar, rule: SecondsRule, a: DateTime, b: DateTime): (r: real)
    requires WellFormed(cal)
    ensures r >= 0.0
    ensures Instant(a) >= Instant(b) ==> r == 0.0
    ensures Instant(SnapStart(cal, rule, a)) >= Instant(SnapEnd(cal, rule, b)) ==> r == 0.0
  {
    if Instant(a) >= Instant(b) then 0.0
    else
      var s := SnapStart(cal, rule, a);
      var e := SnapEnd(cal, rule, b);
      if Instant(s) >= Instant(e) then 0.0
      else
        var perDay := WindowSeconds(cal);
        SumFromNonNegative(cal, rule, s, e);
        if perDay > 0 then SumFrom(cal, rule, s, e) as real / perDay as real else 0.0
  }

  /** From a cursor inside working hours, every day of the walk adds a non-negative amount. */
  lemma {:induction false} SumFromNonNegative(cal: Calendar, rule: SecondsRule, c: DateTime, e: DateTime)
    requires WellFormed(cal) && StartSec(cal) <= c.sec < EndSec(cal)
    ensures SumFrom(cal, rule, c, e) >= 0
    decreases e.day - c.day
  {
    if Instant(c) < Instant(e) {
      SumFromNonNegative(cal, rule, NextDayAtStart(cal, rule, c), e);
    }
  }

  /** The resolution time of two cells (app.py:77-133). */
  function Resolve(cal: Calendar, rule: SecondsRule, startCell: Cell, endCell: Cell): (r: Duration)
    requires WellFormed(cal)
    ensures r == Undefined <==>
              || startCell.Missing? || endCell.Missing?
              || TimestampParser.MatchesNoFormat(TimestampParser.Strip(startCell.text))
              || TimestampParser.MatchesNoFormat(TimestampParser.Strip(endCell.text))
    ensures r.Days? ==> r.value >= 0.0
  {
    if startCell.Missing? || endCell.Missing? then Undefined
    else
      var a := TimestampParser.Parse(TimestampParser.Strip(startCell.text));
      var b := TimestampParser.Parse(TimestampParser.Strip(endCell.text));
      if a.None? || b.None? then Undefined
      else Days(ResolveParsed(cal, rule, a.value, b.value))
  }

  // ---------------------------------------------------------------------------
  // The loops of app.py. With CarrySeconds they run as written; with
  // ZeroSeconds every `replace` also sets the seconds to zero.

  /** The start snap loop of app.py:99-108. */
  method MoveStartForward(cal: Calendar, rule: SecondsRule, t: DateTime) returns (r: DateTime)
    requires WellFormed(cal)
    ensures r == SnapStart(cal, rule, t)
  {
    r := t;
    while true
      invariant SnapStart(cal, rule, r) == SnapStart(cal, rule, t)
      decreases |HolidaysFrom(cal.holidays, r.day)|, StartRank(cal, r)
    {
      WeekdayNext(r.day);
      HolidaysFromStep(cal.holidays, r.day);
      if r.day in cal.holidays || Weekday(r.day) >= 5 {
        r := DateTime(r.day + 1, StartSec(cal));
        continue;
      }
      if r.sec < StartSec(cal) {
        r := DateTime(r.day, StartSec(cal) + Kept(rule, r.sec));
      } else if r.sec >= EndSec(cal) {
        r := DateTime(r.day + 1, StartSec(cal) + Kept(rule, r.sec));
        continue;
      }
      break;
    }
  }

  /** The end snap loop of app.py:110-119. */
  method MoveEndBack(cal: Calendar, rule: SecondsRule, t: DateTime) returns (r: DateTime)
    requires WellFormed(cal)
    ensures r == SnapEnd(cal, rule, t)
  {
    r := t;
    while true
      invariant SnapEnd(cal, rule, r) == SnapEnd(cal, rule, t)
      decreases |HolidaysUpTo(cal.holidays, r.day)|, EndRank(cal, r)
    {
      WeekdayNext(r.day - 1);
      HolidaysUpToStep(cal.holidays, r.day);
      if r.day in cal.holidays || Weekday(r.day) >= 5 {
        r := DateTime(r.day - 1, EndSec(cal));
        continue;
      }
      if r.sec > EndSec(cal) {
        r := DateTime(r.day, EndSec(cal) + Kept(rule, r.sec));
      } else if r.sec <= StartSec(cal) {
        r := DateTime(r.day - 1, EndSec(cal) + Kept(rule, r.sec));
        continue;
      }
      break;
    }
  }

  /** The day walk of app.py:123-130. */
  method SumWorkingSeconds(cal: Calendar, rule: SecondsRule, s: DateTime, e: DateTime) returns (total: int)
    ensures total == SumFrom(cal, rule, s, e)
  {
    total := 0;
    var cur := s;
    while Instant(cur) < Instant(e)
      invariant total + SumFrom(cal, rule, cur, e) == SumFrom(cal, rule, s, e)
      decreases e.day - cur.day
    {
      if Weekday(cur.day) < 5 && cur.day !in cal.holidays {
        var dayStart := DayStart(cal, cur.day);
        var dayEnd := DayEnd(cal, cur.day);
        total := total + (Min(Instant(e), dayEnd) - Max(Instant(cur), dayStart));
      }
      cur := DateTime(cur.day + 1, StartSec(cal) + Kept(rule, cur.sec));
    }
  }

  /** `calculate_working_days` (app.py:77-133). */
  method CalculateWorkingDays(startCell: Cell, endCell: Cell, cal: Calendar, rule: SecondsRule) returns (r: Duration)
    requires WellFormed(cal)
    ensures r == Resolve(cal, rule, startCell, endCell)
  {
    if startCell.Missing? || endCell.Missing? {
      return Undefined;
    }
    var startText, endText := TimestampParser.Strip(startCell.text), TimestampParser.Strip(endCell.text);
    var a := TimestampParser.ParseTimestamp(startText);
    var b := TimestampParser.ParseTimestamp(endText);
    if a.None? || b.None? {
      return Undefined;
    }
    if Instant(a.value) >= Instant(b.value) {
      return Days(0.0);
    }
    var s := MoveStartForward(cal, rule, a.value);
    var e := MoveEndBack(cal, rule, b.value);
    if Instant(s) >= Instant(e) {
      return Days(0.0);
    }
    var total := SumWorkingSeconds(cal, rule, s, e);
    var perDay := WindowSeconds(cal);
    r := if perDay > 0 then Days(total as real / perDay as real) else Days(0.0);
  }

  // ---------------------------------------------------------------------------
  // What the snaps skip

  /**
    With no seconds to carry, the start snap lands on the first working instant
    at or after the start: the time it skips holds no work.
   */
  lemma {:induction false} SnapStartSkipsNoWork(cal: Calendar, rule: SecondsRule, t: DateTime)
    requires WellFormed(cal) && Kept(rule, t.sec) == 0
    ensures NoWorkIn(cal, Instant(t), Instant(SnapStart(cal, rule, t)))
    ensures Kept(rule, SnapStart(cal, rule, t).sec) == 0
    decreases |HolidaysFrom(cal.holidays, t.day)|, StartRank(cal, t)
  {
    WeekdayNext(t.day);
    HolidaysFromStep(cal.holidays, t.day);
    var r := SnapStart(cal, rule, t);
    if !IsWorkingDay(cal, t.day) || t.sec >= EndSec(cal) {
      var t' := DateTime(t.day + 1, StartSec(cal));
      assert !IsWorkingDay(cal, t.day) ==> r == SnapStart(cal, rule, t');
      assert IsWorkingDay(cal, t.day) ==> t' == NextDayAtStart(cal, rule, t);
      SnapStartSkipsNoWork(cal, rule, t');
      NoWorkUntilNextDay(cal, t);
      NoWorkJoin(cal, Instant(t), Instant(t'), Instant(r));
    } else if t.sec < StartSec(cal) {
      NoWorkUntilDayStart(cal, t);
    }
  }

  /**
    With no seconds to carry, the end snap lands on the last working instant
    at or before the end: the time it skips holds no work, and the result is
    never past work end.
   */
  lemma {:induction false} SnapEndSkipsNoWork(cal: Calendar, rule: SecondsRule, t: DateTime)
    requires WellFormed(cal) && Kept(rule, t.sec) == 0
    ensures NoWorkIn(cal, Instant(SnapEnd(cal, rule, t)), Instant(t))
    ensures Kept(rule, SnapEnd(cal, rule, t).sec) == 0
    ensures SnapEnd(cal, rule, t).sec <= EndSec(cal)
    decreases |HolidaysUpTo(cal.holidays, t.day)|, EndRank(cal, t)
  {
    WeekdayNext(t.day - 1);
    HolidaysUpToStep(cal.holidays, t.day);
    var r := SnapEnd(cal, rule, t);
    if !IsWorkingDay(cal, t.day) || t.sec <= StartSec(cal) {
      var t' := DateTime(t.day - 1, EndSec(cal));
      assert r == SnapEnd(cal, rule, t');
      SnapEndSkipsNoWork(cal, rule, t');
      NoWorkSincePreviousDay(cal, t);
      NoWorkJoin(cal, Instant(r), Instant(t'), Instant(t));
    } else if t.sec > EndSec(cal) {
      NoWorkSinceDayEnd(cal, t);
    }
  }

  /**
    From a cursor inside working hours that carries no seconds, the day walk
    adds up exactly the working seconds up to `e`.
   */
  lemma {:induction false} SumFromMeasures(cal: Calendar, rule: SecondsRule, c: DateTime, e: DateTime)
    requires WellFormed(cal)
    requires StartSec(cal) <= c.sec < EndSec(cal) && Kept(rule, c.sec) == 0
    ensures SumFrom(cal, rule, c, e) == WorkDays(cal, c.day, e.day + 1, Instant(c), Instant(e))
    decreases e.day - c.day
  {
    if Instant(c) >= Instant(e) {
      WorkDaysEmpty(cal, c.day, e.day + 1, Instant(c), Instant(e));
    } else {
      var next := NextDayAtStart(cal, rule, c);
      calc {
        SumFrom(cal, rule, c, e);
        == { WalkFirstDay(cal, rule, c, e); }
        Overlap(cal, c.day, Instant(c), Instant(e)) + SumFrom(cal, rule, next, e);
        == { SumFromMeasures(cal, rule, next, e); }
        Overlap(cal, c.day, Instant(c), Instant(e)) + WorkDays(cal, c.day + 1, e.day + 1, Instant(next), Instant(e));
        == { RangeFirstDay(cal, c, e); }
        WorkDays(cal, c.day, e.day + 1, Instant(c), Instant(e));
      }
    }
  }

  /** One pass of the day walk from inside working hours adds the cursor day's share of the interval. */
  lemma WalkFirstDay(cal: Calendar, rule: SecondsRule, c: DateTime, e: DateTime)
    requires WellFormed(cal) && StartSec(cal) <= c.sec < EndSec(cal) && Instant(c) < Instant(e)
    ensures SumFrom(cal, rule, c, e)
            == Overlap(cal, c.day, Instant(c), Instant(e)) + SumFrom(cal, rule, NextDayAtStart(cal, rule, c), e)
  {
  }

  /** The working time from inside a day's hours is that day's share plus the rest from the next work start. */
  lemma RangeFirstDay(cal: Calendar, c: DateTime, e: DateTime)
    requires WellFormed(cal) && StartSec(cal) <= c.sec < EndSec(cal) && Instant(c) < Instant(e)
    ensures WorkDays(cal, c.day, e.day + 1, Instant(c), Instant(e))
            == Overlap(cal, c.day, Instant(c), Instant(e))
               + WorkDays(cal, c.day + 1, e.day + 1, DayStart(cal, c.day + 1), Instant(e))
  {
    forall d | c.day + 1 <= d < e.day + 1
      ensures Overlap(cal, d, Instant(c), Instant(e)) == Overlap(cal, d, DayStart(cal, c.day + 1), Instant(e))
    {
    }
    WorkDaysCongruent(cal, c.day + 1, e.day + 1, Instant(c), Instant(e), DayStart(cal, c.day + 1), Instant(e));
  }

  // ---------------------------------------------------------------------------
  // The resolution time measures working time

  /** The day walk between snapped ends counts the working seconds over any wider range of days. */
  lemma WalkCoversRange(cal: Calendar, rule: SecondsRule, s: DateTime, e: DateTime, lo: int, hi: int)
    requires WellFormed(cal) && StartSec(cal) <= s.sec < EndSec(cal) && Kept(rule, s.sec) == 0
    requires lo <= s.day && e.day < hi
    ensures WorkDays(cal, lo, hi, Instant(s), Instant(e)) == SumFrom(cal, rule, s, e)
  {
    if Instant(s) >= Instant(e) {
      WorkDaysEmpty(cal, lo, hi, Instant(s), Instant(e));
    } else {
      WorkingSecondsOverRange(cal, s, e, lo, hi);
      SumFromMeasures(cal, rule, s, e);
    }
  }

  /**
    Cutting off, at both ends, stretches of time that hold no work leaves the
    working seconds unchanged; what is left is what the day walk counts.
   */
  lemma TrimmedIntervalMeasure(cal: Calendar, rule: SecondsRule, a: DateTime, b: DateTime, s: DateTime, e: DateTime)
    requires WellFormed(cal)
    requires Instant(a) <= Instant(s) && a.day <= s.day && NoWorkIn(cal, Instant(a), Instant(s))
    requires Instant(e) <= Instant(b) && e.day <= b.day && NoWorkIn(cal, Instant(e), Instant(b))
    requires StartSec(cal) <= s.sec < EndSec(cal) && Kept(rule, s.sec) == 0
    ensures WorkingSeconds(cal, a, b) == SumFrom(cal, rule, s, e)
  {
    calc {
      WorkingSeconds(cal, a, b);
    == { WorkDaysTrim(cal, a.day, b.day + 1, Instant(a), Instant(s), Instant(e), Instant(b)); }
      WorkDays(cal, a.day, b.day + 1, Instant(s), Instant(e));
    == { WalkCoversRange(cal, rule, s, e, a.day, b.day + 1); }
      SumFrom(cal, rule, s, e);
    }
  }

  /**
    When no seconds are carried, the resolution time is the working time
    between the two timestamps, in units of one working window.
   */
  lemma ResolveMeasuresWorkingTime(cal: Calendar, rule: SecondsRule, a: DateTime, b: DateTime)
    requires WellFormed(cal) && Kept(rule, a.sec) == 0 && Kept(rule, b.sec) == 0
    ensures ResolveParsed(cal, rule, a, b) == WorkingSeconds(cal, a, b) as real / WindowSeconds(cal) as real
  {
    if Instant(a) >= Instant(b) {
      WorkDaysEmpty(cal, a.day, b.day + 1, Instant(a), Instant(b));
    } else {
      SnapStartSkipsNoWork(cal, rule, a);
      SnapEndSkipsNoWork(cal, rule, b);
      TrimmedIntervalMeasure(cal, rule, a, b, SnapStart(cal, rule, a), SnapEnd(cal, rule, b));
    }
  }

  /** The code as written measures working time exactly for whole-minute timestamps. */
  lemma WholeMinutesMeasured(cal: Calendar, a: DateTime, b: DateTime)
    requires WellFormed(cal) && a.sec % 60 == 0 && b.sec % 60 == 0
    ensures ResolveParsed(cal, CarrySeconds, a, b) == WorkingSeconds(cal, a, b) as real / WindowSeconds(cal) as real
  {
    ResolveMeasuresWorkingTime(cal, CarrySeconds, a, b);
  }

  /** With the seconds zeroed, every pair of timestamps is measured exactly. */
  lemma ZeroedSecondsMeasured(cal: Calendar, a: DateTime, b: DateTime)
    requires WellFormed(cal)
    ensures ResolveParsed(cal, ZeroSeconds, a, b) == WorkingSeconds(cal, a, b) as real / WindowSeconds(cal) as real
  {
    ResolveMeasuresWorkingTime(cal, ZeroSeconds, a, b);
  }

  // ---------------------------------------------------------------------------
  // Boundaries of the snaps

  /** From a day's work start, the start snap lands on the work start of the first working day. */
  lemma {:induction false} SnapStartFromDayStart(cal: Calendar, rule: SecondsRule, t: DateTime)
    requires WellFormed(cal) && t.sec == StartSec(cal)
    ensures SnapStart(cal, rule, t).sec == StartSec(cal)
    ensures forall d :: t.day <= d < SnapStart(cal, rule, t).day ==> !IsWorkingDay(cal, d)
    decreases |HolidaysFrom(cal.holidays, t.day)|, StartRank(cal, t)
  {
    WeekdayNext(t.day);
    HolidaysFromStep(cal.holidays, t.day);
    if !IsWorkingDay(cal, t.day) {
      SnapStartFromDayStart(cal, rule, DateTime(t.day + 1, StartSec(cal)));
    }
  }

  /**
    A start exactly at work end on a working day moves to the work start of
    the next working day: the test is "at or after work end".
   */
  lemma SnapStartAtWorkEnd(cal: Calendar, rule: SecondsRule, t: DateTime)
    requires WellFormed(cal) && IsWorkingDay(cal, t.day) && t.sec == EndSec(cal)
    ensures var r := SnapStart(cal, rule, t);
      && t.day < r.day && r.sec == StartSec(cal)
      && forall d :: t.day < d < r.day ==> !IsWorkingDay(cal, d)
  {
    var next := NextDayAtStart(cal, rule, t);
    assert next == DateTime(t.day + 1, StartSec(cal));
    SnapStartFromDayStart(cal, rule, next);
  }

  /** From a day's work end, the end snap lands on the work end of the last working day. */
  lemma {:induction false} SnapEndFromDayEnd(cal: Calendar, rule: SecondsRule, t: DateTime)
    requires WellFormed(cal) && t.sec == EndSec(cal)
    ensures SnapEnd(cal, rule, t).sec == EndSec(cal)
    ensures forall d :: SnapEnd(cal, rule, t).day < d <= t.day ==> !IsWorkingDay(cal, d)
    decreases |HolidaysUpTo(cal.holidays, t.day)|, EndRank(cal, t)
  {
    WeekdayNext(t.day - 1);
    HolidaysUpToStep(cal.holidays, t.day);
    if !IsWorkingDay(cal, t.day) {
      SnapEndFromDayEnd(cal, rule, DateTime(t.day - 1, EndSec(cal)));
    }
  }

  /**
    An end exactly at work start on a working day moves to the work end of the
    previous working day: the test is "at or before work start".
   */
  lemma SnapEndAtWorkStart(cal: Calendar, rule: SecondsRule, t: DateTime)
    requires WellFormed(cal) && IsWorkingDay(cal, t.day) && t.sec == StartSec(cal)
    ensures var r := SnapEnd(cal, rule, t);
      && r.day < t.day && r.sec == EndSec(cal)
      && forall d :: r.day < d < t.day ==> !IsWorkingDay(cal, d)
  {
    var prev := DateTime(t.day - 1, EndSec(cal) + Kept(rule, t.sec));
    assert prev == DateTime(t.day - 1, EndSec(cal));
    SnapEndFromDayEnd(cal, rule, prev);
  }

  /** A snapped start is already snapped. */
  lemma SnapStartIdempotent(cal: Calendar, rule: SecondsRule, t: DateTime)
    requires WellFormed(cal)
    ensures SnapStart(cal, rule, SnapStart(cal, rule, t)) == SnapStart(cal, rule, t)
  {
  }

  /** A snapped end is already snapped, even when it carries seconds past work end. */
  lemma SnapEndIdempotent(cal: Calendar, rule: SecondsRule, t: DateTime)
    requires WellFormed(cal)
    ensures SnapEnd(cal, rule, SnapEnd(cal, rule, t)) == SnapEnd(cal, rule, t)
  {
    var r := SnapEnd(cal, rule, t);
    if r.sec > EndSec(cal) {
      assert rule == CarrySeconds && r.sec - EndSec(cal) < 60;
      assert Kept(rule, r.sec) == r.sec - EndSec(cal);
    }
  }

  // ---------------------------------------------------------------------------
  // Holidays

  /** A holiday strictly inside the interval takes one full window of working seconds away. */
  lemma HolidayRemovesWindow(cal: Calendar, a: DateTime, b: DateTime, h: int)
    requires WellFormed(cal) && a.day < h < b.day && IsWorkingDay(cal, h)
    ensures WorkingSeconds(cal.(holidays := cal.holidays + {h}), a, b) == WorkingSeconds(cal, a, b) - WindowSeconds(cal)
  {
    WorkDaysAddHoliday(cal, h, a.day, b.day + 1, Instant(a), Instant(b));
    assert Instant(a) <= DayStart(cal, h) && DayEnd(cal, h) <= Instant(b);
  }

  /**
    Declaring a working day strictly inside the interval a holiday shortens
    the resolution time by exactly one working day.
   */
  lemma HolidayRemovesOneDay(cal: Calendar, rule: SecondsRule, a: DateTime, b: DateTime, h: int)
    requires WellFormed(cal) && Kept(rule, a.sec) == 0 && Kept(rule, b.sec) == 0
    requires a.day < h < b.day && IsWorkingDay(cal, h)
    ensures ResolveParsed(cal.(holidays := cal.holidays + {h}), rule, a, b) == ResolveParsed(cal, rule, a, b) - 1.0
  {
    var cal' := cal.(holidays := cal.holidays + {h});
    var w, n := WindowSeconds(cal), WorkingSeconds(cal, a, b);
    assert ResolveParsed(cal, rule, a, b) == n as real / w as real by {
      ResolveMeasuresWorkingTime(cal, rule, a, b);
    }
    assert ResolveParsed(cal', rule, a, b) == (n - w) as real / w as real by {
      ResolveMeasuresWorkingTime(cal', rule, a, b);
      HolidayRemovesWindow(cal, a, b, h);
    }
    OneWindowLess(n, w);
  }

  lemma OneWindowLess(n: int, w: int)
    requires w > 0
    ensures (n - w) as real / w as real == n as real / w as real - 1.0
  {
    var nr, wr := n as real, w as real;
    assert (nr - wr) / wr == nr / wr - wr / wr;
  }
}
