/**
  The date-range presets of the sidebar (app.py, `get_date_range`). The
  current date is a parameter; the result is a pair of day numbers, or no
  range for a name the function does not know.
 */
module DatePresets {
  import opened CivilDate
  import opened BusinessCalendar

  datatype DateRange = Range(start: int, end: int) | NoRange

  /** The preset names app.py:57-74 recognises. */
  predicate KnownPreset(preset: string) {
    preset in ["Today", "Yesterday", "This Week", "Last Week", "This Month", "Last Month"]
  }

  /** The Monday on or before day `d`: `d - timedelta(days=d.weekday())`. */
  function MondayOf(d: int): (r: int)
    ensures Weekday(r) == 0 && r <= d < r + 7
  {
    d - Weekday(d)
  }

  /** A week earlier is the same day of the week. */
  lemma WeekEarlier(d: int)
    ensures Weekday(d - 7) == Weekday(d)
  {
  }

  /** `get_date_range(preset)` with `datetime.now().date()` given as `today` (app.py:54-75). */
  function GetDateRange(preset: string, today: Date): (r: DateRange)
    requires ValidDate(today)
    ensures r.Range? <==> KnownPreset(preset)
    ensures r.Range? ==> r.start <= r.end <= Ordinal(today)
    ensures preset == "Today" ==> r == Range(Ordinal(today), Ordinal(today))
    ensures preset == "Yesterday" ==> r == Range(Ordinal(today) - 1, Ordinal(today) - 1)
    ensures preset == "This Week" ==> r == Range(MondayOf(Ordinal(today)), Ordinal(today))
    ensures preset == "Last Week" ==> r.Range? && Weekday(r.start) == 0 && r.end == r.start + 6
                                      && r.end + 1 == MondayOf(Ordinal(today))
    ensures preset == "This Month" ==> r == Range(Ordinal(Date(today.year, today.month, 1)), Ordinal(today))
    ensures preset == "Last Month" ==>
              var (py, pm) := PreviousMonth(today.year, today.month);
              && r == Range(Ordinal(Date(py, pm, 1)), Ordinal(Date(py, pm, DaysInMonth(py, pm))))
              && r.end + 1 == Ordinal(Date(today.year, today.month, 1))
  {
    var t := Ordinal(today);
    if preset == "Today" then Range(t, t)
    else if preset == "Yesterday" then Range(t - 1, t - 1)
    else if preset == "This Week" then Range(t - Weekday(t), t)
    else if preset == "Last Week" then
      var start := t - (Weekday(t) + 7);
      WeekEarlier(MondayOf(t));
      Range(start, start + 6)
    else if preset == "This Month" then Range(Ordinal(today.(day := 1)), t)
    else if preset == "Last Month" then
      var firstOfMonth := today.(day := 1);
      // The date one day before the first of the month, as a calendar date.
      var (py, pm) := PreviousMonth(today.year, today.month);
      var end := Date(py, pm, DaysInMonth(py, pm));
      DayBeforeFirstOfMonth(today.year, today.month);
      assert Ordinal(end) == Ordinal(firstOfMonth) - 1;
      Range(Ordinal(end.(day := 1)), Ordinal(end))
    else NoRange
  }
}
