/**
  The timestamp parser of `calculate_working_days` (app.py:79-96): strip the
  text, then try eight formats in a fixed order and keep the first that parses.

  Each format is a sequence of strptime-like directives. The matcher reads
  fixed-width fields: four digits for a year, two for every other number, two
  letters for AM/PM, one character for a literal. A parsed result must also be
  a real datetime (year 1 to 9999, a real day of the month), as Python's
  `datetime` constructor demands.
 */
module TimestampParser {
  import opened Wrappers
  import opened CivilDate
  import opened BusinessCalendar

  // ---------------------------------------------------------------------------
  // Stripping (`str(...).strip()`, app.py:80)

  /** The ASCII and Latin-1 characters that Python's `str.isspace` accepts. */
  predicate IsSpace(c: char) {
    c == ' ' || c == '\t' || c == '\n' || c == '\r' || c == '\U{B}' || c == '\U{C}'
    || ('\U{1C}' <= c <= '\U{1F}') || c == '\U{85}' || c == '\U{A0}'
  }

  /** The first index at or after `i` that does not hold white space, or |s|. */
  function SkipSpaces(s: string, i: nat): (n: nat)
    requires i <= |s|
    ensures i <= n <= |s|
    ensures forall k :: i <= k < n ==> IsSpace(s[k])
    ensures n < |s| ==> !IsSpace(s[n])
    decreases |s| - i
  {
    if i < |s| && IsSpace(s[i]) then SkipSpaces(s, i + 1) else i
  }

  /** The end of `s[lo..j]` once trailing white space is dropped. */
  function TextEnd(s: string, lo: nat, j: nat): (n: nat)
    requires lo <= j <= |s|
    ensures lo <= n <= j
    ensures forall k :: n <= k < j ==> IsSpace(s[k])
    ensures n > lo ==> !IsSpace(s[n - 1])
    decreases j
  {
    if j > lo && IsSpace(s[j - 1]) then TextEnd(s, lo, j - 1) else j
  }

  /** `str.strip()`: the text without leading and trailing white space. */
  function Strip(s: string): (r: string)
    ensures exists i, j ::
              && 0 <= i <= j <= |s| && r == s[i..j]
              && (forall k :: 0 <= k < i ==> IsSpace(s[k]))
              && (forall k :: j <= k < |s| ==> IsSpace(s[k]))
    ensures r == [] || (!IsSpace(r[0]) && !IsSpace(r[|r| - 1]))
  {
    var i := SkipSpaces(s, 0);
    var j := TextEnd(s, i, |s|);
    assert forall k :: j <= k < |s| ==> IsSpace(s[k]);
    s[i..j]
  }

  // ---------------------------------------------------------------------------
  // Formats

  datatype Directive = Year | Month | DayOfMonth | Hour24 | Hour12 | Minute | Second | AmPm | Lit(c: char)

  /** A format string, as the list of its directives. */
  datatype Format = End | Then(first: Directive, rest: Format)

  /** The characters a directive reads: four for a year, one for a literal, two otherwise. */
  function Width(d: Directive): nat {
    match d
    case Year => 4
    case Lit(_) => 1
    case _ => 2
  }

  function FormatWidth(fmt: Format): nat {
    match fmt
    case End => 0
    case Then(d, rest) => Width(d) + FormatWidth(rest)
  }

  /** The format reads directive `d` somewhere. */
  predicate Reads(fmt: Format, d: Directive) {
    match fmt
    case End => false
    case Then(x, rest) => x == d || Reads(rest, d)
  }

  /** '%Y-%m-%d %H:%M:%S' */
  const IsoSeconds: Format :=
    Then(Year, Then(Lit('-'), Then(Month, Then(Lit('-'), Then(DayOfMonth, Then(Lit(' '),
    Then(Hour24, Then(Lit(':'), Then(Minute, Then(Lit(':'), Then(Second, End)))))))))))
  /** '%d/%m/%Y %I:%M %p' */
  const DayMonthYear12: Format :=
    Then(DayOfMonth, Then(Lit('/'), Then(Month, Then(Lit('/'), Then(Year, Then(Lit(' '),
    Then(Hour12, Then(Lit(':'), Then(Minute, Then(Lit(' '), Then(AmPm, End)))))))))))
  /** '%Y-%m-%d %H:%M' */
  const IsoMinutes: Format :=
    Then(Year, Then(Lit('-'), Then(Month, Then(Lit('-'), Then(DayOfMonth, Then(Lit(' '),
    Then(Hour24, Then(Lit(':'), Then(Minute, End)))))))))
  /** '%d/%m/%Y %H:%M' */
  const DayMonthYear24: Format :=
    Then(DayOfMonth, Then(Lit('/'), Then(Month, Then(Lit('/'), Then(Year, Then(Lit(' '),
    Then(Hour24, Then(Lit(':'), Then(Minute, End)))))))))
  /** '%m/%d/%Y %I:%M %p' */
  const MonthDayYear12: Format :=
    Then(Month, Then(Lit('/'), Then(DayOfMonth, Then(Lit('/'), Then(Year, Then(Lit(' '),
    Then(Hour12, Then(Lit(':'), Then(Minute, Then(Lit(' '), Then(AmPm, End)))))))))))
  /** '%m/%d/%Y %H:%M' */
  const MonthDayYear24: Format :=
    Then(Month, Then(Lit('/'), Then(DayOfMonth, Then(Lit('/'), Then(Year, Then(Lit(' '),
    Then(Hour24, Then(Lit(':'), Then(Minute, End)))))))))
  /** '%Y/%m/%d %H:%M' */
  const YearSlash24: Format :=
    Then(Year, Then(Lit('/'), Then(Month, Then(Lit('/'), Then(DayOfMonth, Then(Lit(' '),
    Then(Hour24, Then(Lit(':'), Then(Minute, End)))))))))
  /** '%Y/%m/%d %I:%M %p' */
  const YearSlash12: Format :=
    Then(Year, Then(Lit('/'), Then(Month, Then(Lit('/'), Then(DayOfMonth, Then(Lit(' '),
    Then(Hour12, Then(Lit(':'), Then(Minute, Then(Lit(' '), Then(AmPm, End)))))))))))

  /** The formats in the order app.py:81-85 tries them. */
  const Formats: seq<Format> :=
    [IsoSeconds, DayMonthYear12, IsoMinutes, DayMonthYear24,
     MonthDayYear12, MonthDayYear24, YearSlash24, YearSlash12]

  // ---------------------------------------------------------------------------
  // Matching one format

  /**
    The fields read so far. Unread fields keep strptime's defaults (1900-01-01
    00:00:00); hour12 is 0 until a 12-hour clock field is read.
   */
  datatype Fields = Fields(year: int, month: int, day: int, hour: int, hour12: int,
                           minute: int, second: int, pm: bool)

  const Defaults: Fields := Fields(1900, 1, 1, 0, 0, 0, 0, false)

  predicate IsDigit(c: char) { '0' <= c <= '9' }

  predicate AllDigits(s: string) { forall k :: 0 <= k < |s| ==> IsDigit(s[k]) }

  function DigitsValue(s: string): (n: nat)
    requires AllDigits(s)
    ensures n < Pow10(|s|)
  {
    if s == [] then 0
    else DigitsValue(s[..|s| - 1]) * 10 + (s[|s| - 1] as int - '0' as int)
  }

  function Pow10(k: nat): (p: nat)
    ensures p >= 1
  {
    if k == 0 then 1 else 10 * Pow10(k - 1)
  }

  /** The number in `chunk`, when it is all digits and within lo .. hi. */
  function Number(chunk: string, lo: int, hi: int): (r: Option<int>)
    ensures r.Some? ==> lo <= r.value <= hi
  {
    if AllDigits(chunk) && lo <= DigitsValue(chunk) <= hi then Some(DigitsValue(chunk)) else None
  }

  function Lower(c: char): char {
    if 'A' <= c <= 'Z' then (c as int + 32) as char else c
  }

  /** Reads one directive from a chunk of exactly its width. */
  function Apply(d: Directive, chunk: string, f: Fields): Option<Fields>
    requires |chunk| == Width(d)
  {
    match d
    case Year => if AllDigits(chunk) then Some(f.(year := DigitsValue(chunk))) else None
    case Month => var n := Number(chunk, 1, 12); if n.Some? then Some(f.(month := n.value)) else None
    case DayOfMonth => var n := Number(chunk, 1, 31); if n.Some? then Some(f.(day := n.value)) else None
    case Hour24 => var n := Number(chunk, 0, 23); if n.Some? then Some(f.(hour := n.value)) else None
    case Hour12 => var n := Number(chunk, 1, 12); if n.Some? then Some(f.(hour12 := n.value)) else None
    case Minute => var n := Number(chunk, 0, 59); if n.Some? then Some(f.(minute := n.value)) else None
    case Second => var n := Number(chunk, 0, 61); if n.Some? then Some(f.(second := n.value)) else None
    case AmPm =>
      if Lower(chunk[1]) != 'm' then None
      else if Lower(chunk[0]) == 'a' then Some(f.(pm := false))
      else if Lower(chunk[0]) == 'p' then Some(f.(pm := true))
      else None
    case Lit(c) => if chunk[0] == c then Some(f) else None
  }

  /** Reads the directives of `fmt` from the whole of `s`; leftover text is a failure. */
  function Scan(fmt: Format, s: string, f: Fields): Option<Fields> {
    match fmt
    case End => if s == [] then Some(f) else None
    case Then(d, rest) =>
      if |s| < Width(d) then None
      else
        var g := Apply(d, s[..Width(d)], f);
        if g.None? then None else Scan(rest, s[Width(d)..], g.value)
  }

  /** The hour of the day: from the 24-hour field, or from the 12-hour field and AM/PM. */
  function HourOf(f: Fields): int {
    if f.hour12 == 0 then f.hour
    else if f.pm then (if f.hour12 == 12 then 12 else f.hour12 + 12)
    else (if f.hour12 == 12 then 0 else f.hour12)
  }

  /** The second of the day at a wall-clock time. */
  function ClockSeconds(hour: int, minute: int, second: int): SecondOfDay
    requires 0 <= hour <= 23 && 0 <= minute <= 59 && 0 <= second <= 59
  {
    hour * 3600 + minute * 60 + second
  }

  /** The second of the day determines the wall-clock time it came from. */
  lemma ClockSecondsReadBack(hour: int, minute: int, second: int)
    requires 0 <= hour <= 23 && 0 <= minute <= 59 && 0 <= second <= 59
    ensures var r := ClockSeconds(hour, minute, second);
      r / 3600 == hour && r % 3600 / 60 == minute && r % 60 == second
  {
  }

  /** The checks of Python's `datetime(...)` constructor, then the timestamp. */
  function Build(f: Fields): (r: Option<DateTime>)
    ensures r.Some? <==>
              && ValidDate(Date(f.year, f.month, f.day))
              && 0 <= HourOf(f) <= 23 && 0 <= f.minute <= 59 && 0 <= f.second <= 59
    ensures r.Some? ==> r.value == DateTime(Ordinal(Date(f.year, f.month, f.day)), ClockSeconds(HourOf(f), f.minute, f.second))
  {
    var hour := HourOf(f);
    if 1 <= f.year <= 9999 && 1 <= f.month <= 12 && 1 <= f.day <= DaysInMonth(f.year, f.month)
       && 0 <= hour <= 23 && 0 <= f.minute <= 59 && 0 <= f.second <= 59
    then Some(DateTime(Ordinal(Date(f.year, f.month, f.day)), ClockSeconds(hour, f.minute, f.second)))
    else None
  }

  /** `datetime.strptime(s, fmt)`, with None for its ValueError. */
  function Match(fmt: Format, s: string): Option<DateTime> {
    var f := Scan(fmt, s, Defaults);
    if f.None? then None else Build(f.value)
  }

  // ---------------------------------------------------------------------------
  // Trying the formats in order

  /**
    The result of the loop of app.py:88-91 after it has tried `fmts`: the first
    format that parses wins, and no format parsing gives None.
   */
  function FirstMatch(fmts: seq<Format>, s: string): (r: Option<DateTime>)
    ensures r.None? <==> forall i :: 0 <= i < |fmts| ==> Match(fmts[i], s).None?
    ensures r.Some? ==>
              exists i :: 0 <= i < |fmts| && Match(fmts[i], s) == r
                && forall j :: 0 <= j < i ==> Match(fmts[j], s).None?
  {
    if fmts == [] then None
    else
      var earlier := FirstMatch(fmts[..|fmts| - 1], s);
      assert forall i :: 0 <= i < |fmts| - 1 ==> fmts[..|fmts| - 1][i] == fmts[i];
      if earlier.Some? then earlier else Match(fmts[|fmts| - 1], s)
  }

  /** The text is in none of the eight formats. */
  predicate MatchesNoFormat(s: string) {
    forall i :: 0 <= i < |Formats| ==> Match(Formats[i], s).None?
  }

  function Parse(s: string): (r: Option<DateTime>)
    ensures r.None? <==> MatchesNoFormat(s)
  {
    FirstMatch(Formats, s)
  }

  /** The format loop of app.py:88-91 (the same loop runs for the end at app.py:92-95). */
  method ParseTimestamp(s: string) returns (r: Option<DateTime>)
    ensures r == Parse(s)
  {
    r := None;
    for i := 0 to |Formats|
      invariant r == FirstMatch(Formats[..i], s)
    {
      assert Formats[..i + 1][..i] == Formats[..i];
      if r.None? {
        r := Match(Formats[i], s);
      }
    }
    assert Formats[..|Formats|] == Formats;
  }

  /** Whichever format parses first decides the timestamp, whatever later formats would give. */
  lemma ParseTakesFirstFormat(s: string, i: int)
    requires 0 <= i < |Formats| && Match(Formats[i], s).Some?
    requires forall j :: 0 <= j < i ==> Match(Formats[j], s).None?
    ensures Parse(s) == Match(Formats[i], s)
  {
    var r := Parse(s);
    var k :| 0 <= k < |Formats| && Match(Formats[k], s) == r
             && forall j :: 0 <= j < k ==> Match(Formats[j], s).None?;
    assert k == i;
  }

  // ---------------------------------------------------------------------------
  // Shape of a match

  /** A format accepts text of exactly its width. */
  lemma {:induction false} ScanConsumesAll(fmt: Format, s: string, f: Fields)
    requires Scan(fmt, s, f).Some?
    ensures |s| == FormatWidth(fmt)
  {
    match fmt
    case End =>
    case Then(d, rest) =>
      var g := Apply(d, s[..Width(d)], f);
      ScanConsumesAll(rest, s[Width(d)..], g.value);
  }

  /** Text in a format that opens with a year starts with four digits. */
  lemma YearFirstDigits(fmt: Format, s: string)
    requires fmt.Then? && fmt.first == Year && Match(fmt, s).Some?
    ensures |s| >= 4 && AllDigits(s[..4])
  {
  }

  /** Text in the day-first 24-hour format has a slash after two characters. */
  lemma DayFirstSlash(s: string)
    requires Match(DayMonthYear24, s).Some?
    ensures |s| > 2 && s[2] == '/'
  {
    var g := Apply(DayOfMonth, s[..2], Defaults);
    var rest := s[2..];
    assert Scan(DayMonthYear24.rest, rest, g.value).Some?;
    assert Apply(Lit('/'), rest[..1], g.value).Some?;
  }

  /** A format that opens with a year rejects text with a slash after two characters. */
  lemma YearFirstRejectsSlash(fmt: Format, s: string)
    requires fmt.Then? && fmt.first == Year && |s| > 2 && s[2] == '/'
    ensures Match(fmt, s).None?
  {
    if Match(fmt, s).Some? {
      YearFirstDigits(fmt, s);
    }
  }

  /** A format rejects text that is not exactly as wide as it is. */
  lemma WidthMismatchRejects(fmt: Format, s: string)
    requires |s| != FormatWidth(fmt)
    ensures Match(fmt, s).None?
  {
    if Scan(fmt, s, Defaults).Some? {
      ScanConsumesAll(fmt, s, Defaults);
    }
  }

  // Widths: the formats with seconds or AM/PM read 19 characters, the others 16.

  lemma IsoSecondsWidth() ensures FormatWidth(IsoSeconds) == 19 {}
  lemma DayMonthYear12Width() ensures FormatWidth(DayMonthYear12) == 19 {}
  lemma IsoMinutesWidth() ensures FormatWidth(IsoMinutes) == 16 {}
  lemma DayMonthYear24Width() ensures FormatWidth(DayMonthYear24) == 16 {}
  lemma MonthDayYear12Width() ensures FormatWidth(MonthDayYear12) == 19 {}
  lemma MonthDayYear24Width() ensures FormatWidth(MonthDayYear24) == 16 {}
  lemma YearSlash24Width() ensures FormatWidth(YearSlash24) == 16 {}
  lemma YearSlash12Width() ensures FormatWidth(YearSlash12) == 19 {}

  /** Each format reads 16 or 19 characters. */
  lemma FormatWidths(i: int)
    requires 0 <= i < |Formats|
    ensures FormatWidth(Formats[i]) == 16 || FormatWidth(Formats[i]) == 19
  {
    if i == 0 { assert Formats[i] == IsoSeconds; IsoSecondsWidth(); }
    else if i == 1 { assert Formats[i] == DayMonthYear12; DayMonthYear12Width(); }
    else if i == 2 { assert Formats[i] == IsoMinutes; IsoMinutesWidth(); }
    else if i == 3 { assert Formats[i] == DayMonthYear24; DayMonthYear24Width(); }
    else if i == 4 { assert Formats[i] == MonthDayYear12; MonthDayYear12Width(); }
    else if i == 5 { assert Formats[i] == MonthDayYear24; MonthDayYear24Width(); }
    else if i == 6 { assert Formats[i] == YearSlash24; YearSlash24Width(); }
    else { assert Formats[i] == YearSlash12; YearSlash12Width(); }
  }

  /** Sixteen characters with a slash after the first two are not in the first three formats. */
  lemma EarlierFormatsReject(s: string)
    requires |s| == 16 && s[2] == '/'
    ensures Match(IsoSeconds, s).None? && Match(DayMonthYear12, s).None? && Match(IsoMinutes, s).None?
  {
    YearFirstRejectsSlash(IsoSeconds, s);
    YearFirstRejectsSlash(IsoMinutes, s);
    DayMonthYear12Width();
    WidthMismatchRejects(DayMonthYear12, s);
  }

  /**
    Text that reads as day/month/year with a 24-hour clock is read that way,
    even when month/day/year would read it too: no format before it accepts it.
   */
  lemma DayFirstWins(s: string)
    requires Match(DayMonthYear24, s).Some?
    ensures Parse(s) == Match(DayMonthYear24, s)
  {
    assert |s| == 16 && s[2] == '/' by {
      DayFirstSlash(s);
      DayMonthYear24Width();
      ScanConsumesAll(DayMonthYear24, s, Defaults);
    }
    EarlierFormatsReject(s);
    assert Formats[0] == IsoSeconds && Formats[1] == DayMonthYear12 && Formats[2] == IsoMinutes;
    forall j | 0 <= j < 3 ensures Match(Formats[j], s).None? {
      assert j == 0 || j == 1 || j == 2;
    }
    ParseTakesFirstFormat(s, 3);
  }

  // ---------------------------------------------------------------------------
  // Rendering and reading back

  /** `n` written with exactly `w` decimal digits, zero-padded. */
  function Digits(n: int, w: nat): (r: string)
    ensures |r| == w && AllDigits(r)
    decreases w
  {
    if w == 0 then [] else Digits(n / 10, w - 1) + [('0' as int + n % 10) as char]
  }

  lemma {:induction false} DigitsRoundTrip(n: nat, w: nat)
    requires n < Pow10(w)
    ensures DigitsValue(Digits(n, w)) == n
  {
    if w > 0 {
      var r := Digits(n, w);
      assert r[..w - 1] == Digits(n / 10, w - 1);
      assert n / 10 < Pow10(w - 1);
      DigitsRoundTrip(n / 10, w - 1);
    }
  }

  /** The field a directive reads holds a value that the directive can write. */
  predicate InRange(d: Directive, f: Fields) {
    match d
    case Year => 0 <= f.year <= 9999
    case Month => 1 <= f.month <= 12
    case DayOfMonth => 1 <= f.day <= 31
    case Hour24 => 0 <= f.hour <= 23
    case Hour12 => 1 <= f.hour12 <= 12
    case Minute => 0 <= f.minute <= 59
    case Second => 0 <= f.second <= 61
    case _ => true
  }

  /** What `strftime` writes for one directive. */
  function Field(d: Directive, f: Fields): (r: string)
    ensures |r| == Width(d)
  {
    match d
    case Year => Digits(f.year, 4)
    case Month => Digits(f.month, 2)
    case DayOfMonth => Digits(f.day, 2)
    case Hour24 => Digits(f.hour, 2)
    case Hour12 => Digits(f.hour12, 2)
    case Minute => Digits(f.minute, 2)
    case Second => Digits(f.second, 2)
    case AmPm => if f.pm then "PM" else "AM"
    case Lit(c) => [c]
  }

  /** `g` with the field that `d` reads taken from `f`. */
  function Take(d: Directive, f: Fields, g: Fields): Fields {
    match d
    case Year => g.(year := f.year)
    case Month => g.(month := f.month)
    case DayOfMonth => g.(day := f.day)
    case Hour24 => g.(hour := f.hour)
    case Hour12 => g.(hour12 := f.hour12)
    case Minute => g.(minute := f.minute)
    case Second => g.(second := f.second)
    case AmPm => g.(pm := f.pm)
    case Lit(_) => g
  }

  /** Every field holds a value that its directive can write and read back. */
  predicate AllInRange(f: Fields) {
    && 0 <= f.year <= 9999 && 1 <= f.month <= 12 && 1 <= f.day <= 31
    && 0 <= f.hour <= 23 && 1 <= f.hour12 <= 12 && 0 <= f.minute <= 59 && 0 <= f.second <= 61
  }

  /** `strftime(fmt)` of the fields. */
  function Render(fmt: Format, f: Fields): (r: string)
    ensures |r| == FormatWidth(fmt)
  {
    match fmt
    case End => []
    case Then(d, rest) => Field(d, f) + Render(rest, f)
  }

  /** `g` with every field that `fmt` reads taken from `f`. */
  function TakeAll(fmt: Format, f: Fields, g: Fields): Fields {
    match fmt
    case End => g
    case Then(d, rest) => TakeAll(rest, f, Take(d, f, g))
  }

  /** One directive reads back what it writes. */
  lemma ApplyField(d: Directive, f: Fields, g: Fields)
    requires InRange(d, f)
    ensures Apply(d, Field(d, f), g) == Some(Take(d, f, g))
  {
    match d
    case Year => DigitsRoundTrip(f.year, 4);
    case Month => DigitsRoundTrip(f.month, 2);
    case DayOfMonth => DigitsRoundTrip(f.day, 2);
    case Hour24 => DigitsRoundTrip(f.hour, 2);
    case Hour12 => DigitsRoundTrip(f.hour12, 2);
    case Minute => DigitsRoundTrip(f.minute, 2);
    case Second => DigitsRoundTrip(f.second, 2);
    case AmPm =>
    case Lit(_) =>
  }

  /** Every format reads back, field for field, the text it writes. */
  lemma {:induction false} ScanRender(fmt: Format, f: Fields, g: Fields)
    requires AllInRange(f)
    ensures Scan(fmt, Render(fmt, f), g) == Some(TakeAll(fmt, f, g))
  {
    match fmt
    case End =>
    case Then(d, rest) =>
      var s := Render(fmt, f);
      var w := Width(d);
      assert s[..w] == Field(d, f);
      assert s[w..] == Render(rest, f);
      ApplyField(d, f, g);
      ScanRender(rest, f, Take(d, f, g));
  }

  /** Text without white space at either end is left alone by stripping. */
  lemma StripKeepsTrimmed(s: string)
    requires s == [] || (!IsSpace(s[0]) && !IsSpace(s[|s| - 1]))
    ensures Strip(s) == s
  {
  }

  lemma StripIdempotent(s: string)
    ensures Strip(Strip(s)) == Strip(s)
  {
    StripKeepsTrimmed(Strip(s));
  }

  /** The last directive of a format. */
  function LastDirective(fmt: Format): (d: Directive)
    requires fmt.Then?
    ensures Reads(fmt, d)
  {
    if fmt.rest == End then fmt.first else LastDirective(fmt.rest)
  }

  /** The text of a format starts with its first field's text and ends with its last field's. */
  lemma {:induction false} RenderEnds(fmt: Format, f: Fields)
    requires fmt.Then?
    ensures Render(fmt, f)[0] == Field(fmt.first, f)[0]
    ensures var last := LastDirective(fmt);
      Render(fmt, f)[|Render(fmt, f)| - 1] == Field(last, f)[Width(last) - 1]
  {
    if fmt.rest != End {
      RenderEnds(fmt.rest, f);
    }
  }

  /** The hour on a 12-hour clock: 12 for midnight and noon. */
  function Hour12Of(hour: int): int {
    if hour % 12 == 0 then 12 else hour % 12
  }

  /** The fields `strftime` sees in a datetime, the 12-hour clock and AM/PM included. */
  function PrintedFields(d: Date, hour: int, minute: int, second: int): Fields {
    Fields(d.year, d.month, d.day, hour, Hour12Of(hour), minute, second, hour >= 12)
  }

  /** The fields a format reads from a printed datetime, starting from strptime's defaults. */
  function ReadBack(fmt: Format, f: Fields): Fields {
    TakeAll(fmt, f, Defaults)
  }

  /** Reading `%I` and `%p` gives back the hour of the day. */
  lemma TwelveHourClock(hour: int, g: Fields)
    requires 0 <= hour <= 23
    ensures HourOf(g.(hour12 := Hour12Of(hour), pm := hour >= 12)) == hour
  {
  }

  lemma TakeFields(d: Directive, f: Fields, g: Fields)
    ensures var r := Take(d, f, g);
      && r.year == (if d == Year then f.year else g.year)
      && r.month == (if d == Month then f.month else g.month)
      && r.day == (if d == DayOfMonth then f.day else g.day)
      && r.hour == (if d == Hour24 then f.hour else g.hour)
      && r.hour12 == (if d == Hour12 then f.hour12 else g.hour12)
      && r.minute == (if d == Minute then f.minute else g.minute)
      && r.second == (if d == Second then f.second else g.second)
      && r.pm == (if d == AmPm then f.pm else g.pm)
  {
  }

  /** Reading a format sets exactly the fields that its directives read. */
  lemma {:induction false} TakeAllFields(fmt: Format, f: Fields, g: Fields)
    ensures var r := TakeAll(fmt, f, g);
      && r.year == (if Reads(fmt, Year) then f.year else g.year)
      && r.month == (if Reads(fmt, Month) then f.month else g.month)
      && r.day == (if Reads(fmt, DayOfMonth) then f.day else g.day)
      && r.hour == (if Reads(fmt, Hour24) then f.hour else g.hour)
      && r.hour12 == (if Reads(fmt, Hour12) then f.hour12 else g.hour12)
      && r.minute == (if Reads(fmt, Minute) then f.minute else g.minute)
      && r.second == (if Reads(fmt, Second) then f.second else g.second)
      && r.pm == (if Reads(fmt, AmPm) then f.pm else g.pm)
  {
    match fmt
    case End =>
    case Then(d, rest) =>
      TakeAllFields(rest, f, Take(d, f, g));
      TakeFields(d, f, g);
  }

  /** The printed format reads every field of a printed datetime but the 12-hour clock. */
  lemma IsoSecondsReadsPrinted(d: Date, hour: int, minute: int, second: int)
    ensures var f := PrintedFields(d, hour, minute, second);
      ReadBack(IsoSeconds, f) == f.(hour12 := 0, pm := false)
  {
    TakeAllFields(IsoSeconds, PrintedFields(d, hour, minute, second), Defaults);
  }

  lemma PrintedIsTrimmed(d: Date, hour: int, minute: int, second: int)
    ensures var s := Render(IsoSeconds, PrintedFields(d, hour, minute, second));
      Strip(s) == s
  {
    var f := PrintedFields(d, hour, minute, second);
    var s := Render(IsoSeconds, f);
    assert !IsSpace(s[0]) && !IsSpace(s[|s| - 1]) by {
      RenderEnds(IsoSeconds, f);
      assert IsoSeconds.first == Year && LastDirective(IsoSeconds) == Second;
    }
    StripKeepsTrimmed(s);
  }

  /** Fields on a 24-hour clock make the timestamp of their date and time. */
  lemma BuildClock(f: Fields)
    requires f.hour12 == 0
    requires ValidDate(Date(f.year, f.month, f.day)) && 0 <= f.hour <= 23 && 0 <= f.minute <= 59 && 0 <= f.second <= 59
    ensures Build(f) == Some(DateTime(Ordinal(Date(f.year, f.month, f.day)), ClockSeconds(f.hour, f.minute, f.second)))
  {
  }

  /** The first format reads back a printed datetime. */
  lemma PrintedRoundTrip(d: Date, hour: int, minute: int, second: int)
    requires ValidDate(d) && 0 <= hour <= 23 && 0 <= minute <= 59 && 0 <= second <= 59
    ensures Match(IsoSeconds, Render(IsoSeconds, PrintedFields(d, hour, minute, second)))
            == Some(DateTime(Ordinal(d), ClockSeconds(hour, minute, second)))
  {
    var f := PrintedFields(d, hour, minute, second);
    MatchRendered(IsoSeconds, f);
    IsoSecondsReadsPrinted(d, hour, minute, second);
    BuildClock(f.(hour12 := 0, pm := false));
  }

  /**
    A timestamp written the way Python prints a datetime,
    `YYYY-MM-DD HH:MM:SS`, parses back to that timestamp.
   */
  lemma ParsePrinted(d: Date, hour: int, minute: int, second: int)
    requires ValidDate(d) && 0 <= hour <= 23 && 0 <= minute <= 59 && 0 <= second <= 59
    ensures Parse(Strip(Render(IsoSeconds, PrintedFields(d, hour, minute, second))))
            == Some(DateTime(Ordinal(d), ClockSeconds(hour, minute, second)))
  {
    var s := Render(IsoSeconds, PrintedFields(d, hour, minute, second));
    PrintedIsTrimmed(d, hour, minute, second);
    PrintedRoundTrip(d, hour, minute, second);
    assert Formats[0] == IsoSeconds;
    ParseTakesFirstFormat(s, 0);
  }

  /** What a format reads from the text it writes, before the datetime checks. */
  lemma MatchRendered(fmt: Format, f: Fields)
    requires AllInRange(f)
    ensures Match(fmt, Render(fmt, f)) == Build(ReadBack(fmt, f))
  {
    ScanRender(fmt, f, Defaults);
  }

  /** A directive with day and month exchanged. */
  function SwapDayMonth(d: Directive): Directive {
    if d == Month then DayOfMonth else if d == DayOfMonth then Month else d
  }

  /** A format with the day and month directives exchanged. */
  function SwapFormat(fmt: Format): Format {
    match fmt
    case End => End
    case Then(d, rest) => Then(SwapDayMonth(d), SwapFormat(rest))
  }

  function SwapFields(f: Fields): Fields {
    f.(month := f.day, day := f.month)
  }

  /** Exchanging the day and month in both the format and the fields writes the same text. */
  lemma {:induction false} RenderSwapped(fmt: Format, f: Fields)
    ensures Render(SwapFormat(fmt), SwapFields(f)) == Render(fmt, f)
  {
    match fmt
    case End =>
    case Then(d, rest) =>
      RenderSwapped(rest, f);
  }

  /** The two slash formats with a 24-hour clock read every field but the seconds and the 12-hour clock. */
  lemma MinuteFormatsRead(f: Fields)
    ensures ReadBack(DayMonthYear24, f) == f.(hour12 := 0, pm := false, second := 0)
    ensures ReadBack(MonthDayYear24, f) == f.(hour12 := 0, pm := false, second := 0)
  {
    TakeAllFields(DayMonthYear24, f, Defaults);
    TakeAllFields(MonthDayYear24, f, Defaults);
  }

  /** The day-first format with a 24-hour clock reads back the date and time it writes, to the minute. */
  lemma DayFirstRoundTrip(d: Date, hour: int, minute: int)
    requires ValidDate(d) && 0 <= hour <= 23 && 0 <= minute <= 59
    ensures var f := PrintedFields(d, hour, minute, 0);
      Match(DayMonthYear24, Render(DayMonthYear24, f)) == Some(DateTime(Ordinal(d), ClockSeconds(hour, minute, 0)))
  {
    var f := PrintedFields(d, hour, minute, 0);
    MatchRendered(DayMonthYear24, f);
    MinuteFormatsRead(f);
    BuildClock(f.(hour12 := 0, pm := false, second := 0));
  }

  /** The month-first format with a 24-hour clock reads back the date and time it writes, to the minute. */
  lemma MonthFirstRoundTrip(d: Date, hour: int, minute: int)
    requires ValidDate(d) && 0 <= hour <= 23 && 0 <= minute <= 59
    ensures var f := PrintedFields(d, hour, minute, 0);
      Match(MonthDayYear24, Render(MonthDayYear24, f)) == Some(DateTime(Ordinal(d), ClockSeconds(hour, minute, 0)))
  {
    var f := PrintedFields(d, hour, minute, 0);
    MatchRendered(MonthDayYear24, f);
    MinuteFormatsRead(f);
    BuildClock(f.(hour12 := 0, pm := false, second := 0));
  }

  /** The day-first format with AM/PM reads every field but the 24-hour clock and the seconds. */
  lemma TwelveHourFormatRead(f: Fields)
    ensures ReadBack(DayMonthYear12, f) == f.(hour := 0, second := 0)
  {
    TakeAllFields(DayMonthYear12, f, Defaults);
  }

  /** The day-first format with AM/PM reads back the date and the time it writes, to the minute. */
  lemma TwelveHourRoundTrip(d: Date, hour: int, minute: int)
    requires ValidDate(d) && 0 <= hour <= 23 && 0 <= minute <= 59
    ensures Match(DayMonthYear12, Render(DayMonthYear12, PrintedFields(d, hour, minute, 0)))
            == Some(DateTime(Ordinal(d), ClockSeconds(hour, minute, 0)))
  {
    var f := PrintedFields(d, hour, minute, 0);
    var g := f.(hour := 0, second := 0);
    MatchRendered(DayMonthYear12, f);
    TwelveHourFormatRead(f);
    assert HourOf(g) == hour by {
      assert g == g.(hour12 := Hour12Of(hour), pm := hour >= 12);
      TwelveHourClock(hour, g);
    }
  }

  /** Text that the day-first format with AM/PM accepts has a slash after two characters. */
  lemma TwelveHourSlash(s: string)
    requires Match(DayMonthYear12, s).Some?
    ensures |s| > 2 && s[2] == '/'
  {
    var g := Apply(DayOfMonth, s[..2], Defaults);
    var rest := s[2..];
    assert Scan(DayMonthYear12.rest, rest, g.value).Some?;
    assert Apply(Lit('/'), rest[..1], g.value).Some?;
  }

  /**
    A date and time written as `%d/%m/%Y %I:%M %p` parses back to that date
    and time: the only format tried before it opens with a year.
   */
  lemma TwelveHourTextParses(d: Date, hour: int, minute: int)
    requires ValidDate(d) && 0 <= hour <= 23 && 0 <= minute <= 59
    ensures Parse(Render(DayMonthYear12, PrintedFields(d, hour, minute, 0)))
            == Some(DateTime(Ordinal(d), ClockSeconds(hour, minute, 0)))
  {
    TwelveHourRoundTrip(d, hour, minute);
    TwelveHourWins(Render(DayMonthYear12, PrintedFields(d, hour, minute, 0)));
  }

  /** Text that `%d/%m/%Y %I:%M %p` accepts is parsed by that format: the one format before it opens with a year. */
  lemma TwelveHourWins(s: string)
    requires Match(DayMonthYear12, s).Some?
    ensures Parse(s) == Match(DayMonthYear12, s)
  {
    TwelveHourSlash(s);
    YearFirstRejectsSlash(IsoSeconds, s);
    assert Formats[0] == IsoSeconds && Formats[1] == DayMonthYear12;
    ParseTakesFirstFormat(s, 1);
  }

  /**
    Text written day first with a 24-hour clock, whose day is 12 or less,
    reads month first too; the parser takes the day-first reading.
   */
  lemma AmbiguousTextIsDayFirst(year: int, month: int, day: int, hour: int, minute: int)
    requires 1 <= year <= 9999 && 1 <= month <= 12 && 1 <= day <= 12 && 0 <= hour <= 23 && 0 <= minute <= 59
    ensures var text := Render(DayMonthYear24, PrintedFields(Date(year, month, day), hour, minute, 0));
      && Parse(text) == Some(DateTime(Ordinal(Date(year, month, day)), ClockSeconds(hour, minute, 0)))
      && Match(MonthDayYear24, text) == Some(DateTime(Ordinal(Date(year, day, month)), ClockSeconds(hour, minute, 0)))
  {
    var f := PrintedFields(Date(year, month, day), hour, minute, 0);
    var g := PrintedFields(Date(year, day, month), hour, minute, 0);
    var text := Render(DayMonthYear24, f);
    assert text == Render(MonthDayYear24, g) by {
      assert SwapFormat(DayMonthYear24) == MonthDayYear24 && SwapFields(f) == g;
      RenderSwapped(DayMonthYear24, f);
    }
    MonthFirstRoundTrip(Date(year, day, month), hour, minute);
    DayFirstRoundTrip(Date(year, month, day), hour, minute);
    DayFirstWins(text);
  }

  /** Text that is not 16 or 19 characters long after stripping, such as "not-a-date", gives no timestamp. */
  lemma WrongLengthRejected(s: string)
    requires |s| != 16 && |s| != 19
    ensures Parse(s).None?
  {
    forall i | 0 <= i < |Formats| ensures Match(Formats[i], s).None? {
      FormatWidths(i);
      WidthMismatchRejects(Formats[i], s);
    }
  }
}
