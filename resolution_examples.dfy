/**
  Worked examples of the resolver on the app's default calendar: work from
  09:30 to 18:30, no holidays. 2024-01-02 is day 738887, a Tuesday.
 */
module ResolutionExamples {
  import opened CivilDate
  import opened BusinessCalendar
  import opened IntervalResolver

  /** 09:30 to 18:30, no holidays: a 32400-second working window. */
  const Default: Calendar := Calendar(570, 1110, {})

  const Tuesday: int := 738887
  const Wednesday: int := 738888
  const Friday: int := 738890
  const Monday: int := 738893

  /** The day numbers above are the ordinals of 2024-01-02, -03, -05 and -08, and fall on those weekdays. */
  lemma ExampleDates()
    ensures Ordinal(Date(2024, 1, 2)) == Tuesday && Weekday(Tuesday) == 1
    ensures Ordinal(Date(2024, 1, 3)) == Wednesday && Weekday(Wednesday) == 2
    ensures Ordinal(Date(2024, 1, 5)) == Friday && Weekday(Friday) == 4
    ensures Ordinal(Date(2024, 1, 8)) == Monday && Weekday(Monday) == 0
  {
    var p := 2023;
    assert p / 4 == 505 && p / 100 == 20 && p / 400 == 5;
    assert p * 365 == 738395;
    assert DaysBeforeYear(2024) == 738885;
    assert DaysBeforeMonth(2024, 1) == 0;
  }

  /** Tuesday 09:30 to Tuesday 18:30 is exactly one working day. */
  lemma TuesdayIsOneDay()
    ensures ResolveParsed(Default, CarrySeconds, DateTime(Tuesday, 34200), DateTime(Tuesday, 66600)) == 1.0
  {
    var a, b := DateTime(Tuesday, 34200), DateTime(Tuesday, 66600);
    assert Weekday(Tuesday) == 1;
    assert SnapStart(Default, CarrySeconds, a) == a;
    assert SnapEnd(Default, CarrySeconds, b) == b;
    assert SumFrom(Default, CarrySeconds, NextDayAtStart(Default, CarrySeconds, a), b) == 0;
    assert SumFrom(Default, CarrySeconds, a, b) == 32400;
  }

  /**
    Friday 17:00 to Monday 09:00: the end snaps back over the weekend to
    Friday 18:30, which leaves an hour and a half, a sixth of a working day.
   */
  lemma FridayEveningToMonday()
    ensures ResolveParsed(Default, CarrySeconds, DateTime(Friday, 61200), DateTime(Monday, 32400)) == 1.0 / 6.0
  {
    var a, b := DateTime(Friday, 61200), DateTime(Monday, 32400);
    assert Weekday(Friday) == 4 && Weekday(Monday) == 0;
    assert Weekday(Monday - 1) == 6 && Weekday(Monday - 2) == 5;
    var fridayEnd := DateTime(Friday, 66600);
    assert SnapEnd(Default, CarrySeconds, DateTime(Monday - 2, 66600)) == fridayEnd;
    assert SnapEnd(Default, CarrySeconds, DateTime(Monday - 1, 66600)) == fridayEnd;
    assert SnapEnd(Default, CarrySeconds, b) == fridayEnd;
    assert SnapStart(Default, CarrySeconds, a) == a;
    assert SumFrom(Default, CarrySeconds, NextDayAtStart(Default, CarrySeconds, a), fridayEnd) == 0;
    assert SumFrom(Default, CarrySeconds, a, fridayEnd) == 5400;
  }

  /**
    Tuesday 10:00:30 to Wednesday 18:30:00 holds 30570 + 32400 working
    seconds. As written, the walk moves the cursor to Wednesday 09:30:30 and
    so counts 30 seconds fewer; with the seconds zeroed the count is exact.
   */
  lemma CarriedSecondsAreLost()
    ensures var a, b := DateTime(Tuesday, 36030), DateTime(Wednesday, 66600);
      && WorkingSeconds(Default, a, b) == 62970
      && ResolveParsed(Default, CarrySeconds, a, b) == 62940.0 / 32400.0
      && ResolveParsed(Default, ZeroSeconds, a, b) == 62970.0 / 32400.0
  {
    var a, b := DateTime(Tuesday, 36030), DateTime(Wednesday, 66600);
    assert Weekday(Tuesday) == 1 && Weekday(Wednesday) == 2;
    assert SnapStart(Default, CarrySeconds, a) == a;
    assert SnapEnd(Default, CarrySeconds, b) == b;
    var wed := NextDayAtStart(Default, CarrySeconds, a);
    assert wed == DateTime(Wednesday, 34230);
    assert SumFrom(Default, CarrySeconds, NextDayAtStart(Default, CarrySeconds, wed), b) == 0;
    assert SumFrom(Default, CarrySeconds, wed, b) == 32370;
    assert SumFrom(Default, CarrySeconds, a, b) == 62940;
    assert WorkDays(Default, Wednesday, Wednesday + 1, Instant(a), Instant(b)) == 32400;
    assert WorkingSeconds(Default, a, b) == 62970;
    ZeroedSecondsMeasured(Default, a, b);
  }
}
