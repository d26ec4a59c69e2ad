/** `parse_time`, `acceptedFormats` and `weekdayName_to_weekdayNumber`: a time
    expression is matched against an ordered list of formats, and the first format that
    parses decides which calendar fields are taken from the text and which are filled
    in from "now" in the target timezone. */
module TimeExpr {
  import opened Wrappers
  import opened Text
  import opened Calendar

  /** The four granularities of a time expression. */
  datatype TimeClass = Week | TimeOnly | DayOfMonth | Complete

  datatype Format = Format(cls: TimeClass, pattern: string)

  /** `acceptedFormats`, in the order `parse_time` tries them. */
  const AcceptedFormats: seq<Format> := [
    Format(Week, "%A, %H"),
    Format(Week, "%A, %I%p"),
    Format(Week, "%A, %H:%M"),
    Format(Week, "%A, %I:%M%p"),
    Format(TimeOnly, "%H"),
    Format(TimeOnly, "%I%p"),
    Format(TimeOnly, "%H:%M"),
    Format(TimeOnly, "%I:%M%p"),
    Format(DayOfMonth, "%d, %H"),
    Format(DayOfMonth, "%d, %I%p"),
    Format(DayOfMonth, "%d, %H:%M"),
    Format(DayOfMonth, "%d, %I:%M%p"),
    Format(Complete, "%Y-%m-%d, %H"),
    Format(Complete, "%Y-%m-%d, %I%p"),
    Format(Complete, "%Y-%m-%d, %H:%M"),
    Format(Complete, "%Y-%m-%d, %I:%M%p"),
    Format(Complete, "%d/%m/%Y, %H"),
    Format(Complete, "%d/%m/%Y, %I%p"),
    Format(Complete, "%d/%m/%Y, %H:%M"),
    Format(Complete, "%d/%m/%Y, %I:%M%p")
  ]

  /** Position of a class in the trying order. */
  function ClassRank(c: TimeClass): nat {
    match c
    case Week => 0
    case TimeOnly => 1
    case DayOfMonth => 2
    case Complete => 3
  }

  /** The `strftime` pattern the caller renders a result of each class with. */
  function OutputPattern(c: TimeClass): string {
    match c
    case Week => "%A %d, %H:%M"
    case TimeOnly => "%A, %H:%M"
    case DayOfMonth => "%B %d, %H:%M"
    case Complete => "%Y-%m-%d, %H:%M"
  }

  /** The formats are grouped by class, week first and complete dates last, four
      formats for each relative class and eight for complete dates. */
  lemma FormatsInClassOrder()
    ensures |AcceptedFormats| == 20
    ensures forall i, j :: 0 <= i < j < |AcceptedFormats| ==>
              ClassRank(AcceptedFormats[i].cls) <= ClassRank(AcceptedFormats[j].cls)
    ensures forall i :: 0 <= i < |AcceptedFormats| ==> ClassRank(AcceptedFormats[i].cls) == if i < 12 then i / 4 else 3
  {
    FormatRanks();
  }

  lemma FormatRanks()
    ensures |AcceptedFormats| == 20
    ensures forall i :: 0 <= i < |AcceptedFormats| ==> ClassRank(AcceptedFormats[i].cls) == if i < 12 then i / 4 else 3
  {
  }

  // ---------------------------------------------------------------------------
  // strptime, left abstract
  // ---------------------------------------------------------------------------

  /** The fields of the `datetime` that `strptime` returns; fields a format does not
      mention hold strptime's defaults (1900-01-01). */
  datatype Fields = Fields(year: int, month: int, day: int, hour: int, minute: int)

  predicate ValidFields(f: Fields) {
    ValidDate(Date(f.year, f.month, f.day)) && 0 <= f.hour < 24 && 0 <= f.minute < 60
  }

  /** strptime only ever returns a valid `datetime`. */
  type Parsed = f: Fields | ValidFields(f) witness Fields(1900, 1, 1, 0, 0)

  /** `datetime.strptime(text, pattern)`: the parsed fields, or `None` where it raises
      `ValueError`. */
  type Strptime = (string, string) -> Option<Parsed>

  /** The first format of `formats`, from position `k` on, that `strptime` accepts. */
  function FirstFormat(formats: seq<Format>, strptime: Strptime, input: string, k: nat): (r: Option<(nat, Parsed)>)
    requires k <= |formats|
    ensures r.Some? ==>
      && k <= r.value.0 < |formats|
      && strptime(input, formats[r.value.0].pattern) == Some(r.value.1)
      && forall j :: k <= j < r.value.0 ==> strptime(input, formats[j].pattern).None?
    ensures r.None? ==> forall j :: k <= j < |formats| ==> strptime(input, formats[j].pattern).None?
    decreases |formats| - k
  {
    if k == |formats| then None
    else match strptime(input, formats[k].pattern)
      case Some(f) => Some((k, f))
      case None => FirstFormat(formats, strptime, input, k + 1)
  }

  // ---------------------------------------------------------------------------
  // Weekday names
  // ---------------------------------------------------------------------------

  const WeekdayNames: seq<string> := ["monday", "tuesday", "wednesday", "thursday", "friday", "saturday", "sunday"]

  function IndexIn(names: seq<string>, s: string, k: nat): (r: Option<nat>)
    requires k <= |names|
    ensures r.Some? ==> k <= r.value < |names| && names[r.value] == s && s !in names[k..r.value]
    ensures r.None? ==> s !in names[k..]
    decreases |names| - k
  {
    if k == |names| then None
    else if names[k] == s then Some(k)
    else
      var r := IndexIn(names, s, k + 1);
      assert names[k..] == [names[k]] + names[k + 1..];
      assert r.Some? ==> names[k..r.value] == [names[k]] + names[k + 1..r.value];
      r
  }

  /** `weekdayName_to_weekdayNumber`: the position of the lower-cased name among
      monday..sunday, or nothing (the source then returns `None`). */
  function WeekdayNumber(name: string): (r: Option<nat>)
    ensures r.Some? ==> r.value < 7 && WeekdayNames[r.value] == Lower(name)
    ensures r.None? <==> Lower(name) !in WeekdayNames
  {
    IndexIn(WeekdayNames, Lower(name), 0)
  }

  /** Every day name maps back to its number, whatever its case. */
  lemma WeekdayNumberOfName(k: nat, name: string)
    requires k < 7
    requires Lower(name) == WeekdayNames[k]
    ensures WeekdayNumber(name) == Some(k)
  {
    var r := WeekdayNumber(name);
    assert r.Some?;
    assert WeekdayNames[r.value] == WeekdayNames[k];
  }

  /** Lower-case and upper-case spellings give the same number. */
  lemma WeekdayNumberIgnoresCase(name: string)
    ensures WeekdayNumber(Upper(name)) == WeekdayNumber(name)
  {
    LowerOfUpper(name);
  }

  /** Length of the run of ASCII letters at the start of `s`. */
  function LetterRun(s: string): (k: nat)
    ensures k <= |s|
    ensures forall i :: 0 <= i < k ==> IsAsciiLetter(s[i])
    ensures k < |s| ==> !IsAsciiLetter(s[k])
    decreases |s|
  {
    if |s| > 0 && IsAsciiLetter(s[0]) then 1 + LetterRun(s[1..]) else 0
  }

  /** `re.match(r"^([A-Za-z]+),", input)`: the letters in front of a comma at the start. */
  function LeadingWord(s: string): (r: Option<string>)
    ensures r.Some? ==> |r.value| >= 1 && |r.value| < |s| && s[..|r.value|] == r.value && s[|r.value|] == ','
  {
    var k := LetterRun(s);
    if 1 <= k < |s| && s[k] == ',' then Some(s[..k]) else None
  }

  /** Text that starts with a weekday name in any case and a comma has that name as
      its leading word, so the week branch finds a number for it. */
  lemma LeadingWeekdayFound(name: string, rest: string, k: nat)
    requires k < 7 && Lower(name) == WeekdayNames[k]
    requires forall i :: 0 <= i < |name| ==> IsAsciiLetter(name[i])
    ensures LeadingWord(name + "," + rest) == Some(name)
    ensures WeekdayNumber(name) == Some(k)
  {
    assert |name| >= 1 by { assert |WeekdayNames[k]| >= 6; }
    LeadingWordOf(name, rest);
    WeekdayNumberOfName(k, name);
  }

  /** A non-empty run of letters followed by a comma is the leading word. */
  lemma LeadingWordOf(name: string, rest: string)
    requires |name| >= 1
    requires forall i :: 0 <= i < |name| ==> IsAsciiLetter(name[i])
    ensures LeadingWord(name + "," + rest) == Some(name)
  {
    var s := name + "," + rest;
    assert forall i :: 0 <= i < |name| ==> s[i] == name[i];
    LetterRunCoversPrefix(s, |name|);
    assert s[|name|] == ',';
    assert s[..|name|] == name;
  }

  lemma {:induction false} LetterRunCoversPrefix(s: string, n: nat)
    requires n <= |s|
    requires forall i :: 0 <= i < n ==> IsAsciiLetter(s[i])
    ensures LetterRun(s) >= n
    decreases n
  {
    if n > 0 {
      LetterRunCoversPrefix(s[1..], n - 1);
    }
  }

  // ---------------------------------------------------------------------------
  // parse_time
  // ---------------------------------------------------------------------------

  /** `timezone_pytz.localize(t)`, left abstract: the UTC offset, in seconds, that the
      target timezone gives the wall clock `t`. */
  type Localize = DateTime -> int

  /** When the day-of-month candidate is moved one month on. */
  datatype RollRule =
    | RollIfLater   // the test as written: the candidate is later than now
    | RollIfPassed  // the test the comment next to it describes: the candidate is already past

  datatype TimeError =
    | NoFormatMatches   // every strptime raised: `ValueError`
    | DayOutOfRange     // the day does not exist in now's month: `ValueError` from `datetime(...)`
    | UnknownWeekday    // no leading weekday word or an unknown name: the source fails on `None`

  /** The instant and the class whose output pattern the caller uses. */
  datatype TimeResult = TimeResult(at: Aware, cls: TimeClass, pattern: string)

  /** The wall clock on day `d` at the parsed hour and minute, seconds zeroed. */
  function ClockOn(d: Date, f: Parsed): DateTime {
    DateTime(d, f.hour, f.minute, 0, 0)
  }

  function Localized(localize: Localize, t: DateTime): Aware {
    Aware(t, localize(t))
  }

  /** Days from now's weekday forward to weekday `w`: `(w - now.weekday() + 7) % 7`. */
  function DaysUntil(w: nat, today: int): (n: nat)
    requires w < 7 && 0 <= today < 7
    ensures n < 7 && (today + n) % 7 == w
  {
    (w - today + 7) % 7
  }

  /** Whether the day-of-month candidate moves to the next month under `rule`. */
  predicate Rolls(rule: RollRule, candidate: Aware, now: Aware)
    requires ValidDateTime(candidate.wall) && ValidDateTime(now.wall)
  {
    match rule
    case RollIfLater => Instant(candidate) > Instant(now)
    case RollIfPassed => Instant(candidate) < Instant(now)
  }

  /** The week branch: the named weekday, counting today, or `UnknownWeekday` when the
      text does not start with a known weekday name and a comma. */
  function WeekDate(input: string, today: Date): (r: Result<Date, TimeError>)
    requires ValidDate(today)
    ensures r.Ok? <==> LeadingWord(input).Some? && WeekdayNumber(LeadingWord(input).value).Some?
    ensures r.Err? ==> r.error == UnknownWeekday
  {
    match LeadingWord(input)
    case None => Err(UnknownWeekday)
    case Some(word) =>
      match WeekdayNumber(word)
      case None => Err(UnknownWeekday)
      case Some(w) => Ok(AddDays(today, DaysUntil(w, Weekday(today))))
  }

  /** The week branch lands on the named weekday, 0 to 6 days from today; the clock time
      is not compared, so the named weekday being today gives today even when that hour
      has passed. */
  lemma WeekDateIsNamedDay(input: string, today: Date)
    requires ValidDate(today)
    requires WeekDate(input, today).Ok?
    ensures var d := WeekDate(input, today).value;
            var w := WeekdayNumber(LeadingWord(input).value).value;
            && ValidDate(d)
            && Weekday(d) == w
            && 0 <= Ordinal(d) - Ordinal(today) < 7
            && (w == Weekday(today) ==> d == today)
  {
    NamedDayAhead(today, WeekdayNumber(LeadingWord(input).value).value);
  }

  /** Counting forward from `today` to weekday `w` takes fewer than seven days and lands
      on `w`; none at all when today is `w`. */
  lemma NamedDayAhead(today: Date, w: nat)
    requires ValidDate(today) && w < 7
    ensures var d := AddDays(today, DaysUntil(w, Weekday(today)));
            && Weekday(d) == w
            && 0 <= Ordinal(d) - Ordinal(today) < 7
            && (w == Weekday(today) ==> d == today)
  {
    NamedDayWeekday(today, w);
    if w == Weekday(today) {
      NamedDayToday(today, w);
    }
  }

  lemma NamedDayWeekday(today: Date, w: nat)
    requires ValidDate(today) && w < 7
    ensures Weekday(AddDays(today, DaysUntil(w, Weekday(today)))) == w
  {
    AddDaysLandsOn(today, DaysUntil(w, Weekday(today)), w);
  }

  lemma NamedDayToday(today: Date, w: nat)
    requires ValidDate(today) && w == Weekday(today)
    ensures AddDays(today, DaysUntil(w, Weekday(today))) == today
  {
    LandsOn(w, w);
  }

  lemma LandsOn(today: int, w: nat)
    requires 0 <= today < 7 && w < 7
    ensures (today + DaysUntil(w, today)) % 7 == w
    ensures today == w ==> DaysUntil(w, today) == 0
  {
  }

  /** The day-of-month branch: the day in now's month, moved one month on when `rule`
      says so, or `DayOutOfRange` when now's month has no such day. */
  function MonthDayDate(rule: RollRule, f: Parsed, now: Aware, localize: Localize): (r: Result<Date, TimeError>)
    requires ValidDateTime(now.wall)
    ensures r.Err? <==> f.day > DaysInMonth(now.wall.date.year, now.wall.date.month)
    ensures r.Err? ==> r.error == DayOutOfRange
  {
    var today := now.wall.date;
    if f.day > DaysInMonth(today.year, today.month) then Err(DayOutOfRange)
    else
      var candidate := ClockOn(Date(today.year, today.month, f.day), f);
      if Rolls(rule, Localized(localize, candidate), now) then Ok(AddOneMonth(candidate.date))
      else Ok(candidate.date)
  }

  /** The calendar date `parse_time` gives an expression of class `cls` with fields `f`. */
  function ClassDate(rule: RollRule, cls: TimeClass, input: string, f: Parsed, now: Aware, localize: Localize)
    : (r: Result<Date, TimeError>)
    requires ValidDateTime(now.wall)
    ensures r.Ok? ==> ValidDate(r.value)
  {
    match cls
    case Week => WeekDate(input, now.wall.date)
    case TimeOnly => Ok(now.wall.date)
    case DayOfMonth => MonthDayDate(rule, f, now, localize)
    case Complete => Ok(Date(f.year, f.month, f.day))
  }

  /** `parse_time(input, timezone)` with strptime, "now" in the target timezone and
      `localize` supplied: the first accepted format fixes the class and the output
      pattern; the result is localized and has no seconds. Under `RollIfLater` this is
      the code as written. */
  function ParseTime(rule: RollRule, strptime: Strptime, input: string, now: Aware, localize: Localize)
    : (r: Result<TimeResult, TimeError>)
    requires ValidDateTime(now.wall)
    ensures r == Err(NoFormatMatches) <==>
              forall j :: 0 <= j < |AcceptedFormats| ==> strptime(input, AcceptedFormats[j].pattern).None?
    ensures r.Ok? ==>
      && FirstFormat(AcceptedFormats, strptime, input, 0).Some?
      && var (k, f) := FirstFormat(AcceptedFormats, strptime, input, 0).value;
         && r.value.cls == AcceptedFormats[k].cls
         && r.value.pattern == OutputPattern(r.value.cls)
         && ValidDateTime(r.value.at.wall)
         && r.value.at.wall.hour == f.hour && r.value.at.wall.minute == f.minute
         && r.value.at.wall.second == 0 && r.value.at.wall.micro == 0
         && r.value.at.offset == localize(r.value.at.wall)
  {
    match FirstFormat(AcceptedFormats, strptime, input, 0)
    case None => Err(NoFormatMatches)
    case Some((k, f)) =>
      var cls := AcceptedFormats[k].cls;
      match ClassDate(rule, cls, input, f, now, localize)
      case Err(e) => Err(e)
      case Ok(d) => Ok(TimeResult(Localized(localize, ClockOn(d, f)), cls, OutputPattern(cls)))
  }

  /** The class and fields `parse_time` works with: those of the first format that
      parses. */
  function Chosen(strptime: Strptime, input: string): Option<(TimeClass, Parsed)> {
    match FirstFormat(AcceptedFormats, strptime, input, 0)
    case None => None
    case Some((k, f)) => Some((AcceptedFormats[k].cls, f))
  }

  lemma ParseTimeIsClassDate(rule: RollRule, strptime: Strptime, input: string, now: Aware, localize: Localize)
    requires ValidDateTime(now.wall)
    requires Chosen(strptime, input).Some?
    ensures var (cls, f) := Chosen(strptime, input).value;
            var b := ClassDate(rule, cls, input, f, now, localize);
            var r := ParseTime(rule, strptime, input, now, localize);
            && (r.Ok? <==> b.Ok?)
            && (b.Ok? ==> r.value.at == Localized(localize, ClockOn(b.value, f)))
            && (b.Err? ==> r == Err(b.error))
  {
  }

  // ---------------------------------------------------------------------------
  // What each class does with "now"
  // ---------------------------------------------------------------------------

  /** Week class: the date is the next day, counting today, whose weekday is the named
      one, at most six days ahead; an unreadable weekday is an error. */
  lemma WeekClassDate(rule: RollRule, strptime: Strptime, input: string, now: Aware, localize: Localize)
    requires ValidDateTime(now.wall)
    requires Chosen(strptime, input).Some? && Chosen(strptime, input).value.0 == Week
    ensures var r := ParseTime(rule, strptime, input, now, localize);
            && (r.Err? <==> LeadingWord(input).None? || WeekdayNumber(LeadingWord(input).value).None?)
            && (r.Err? ==> r.error == UnknownWeekday)
            && (r.Ok? ==>
                  var d := r.value.at.wall.date;
                  var w := WeekdayNumber(LeadingWord(input).value).value;
                  && Weekday(d) == w
                  && 0 <= Ordinal(d) - Ordinal(now.wall.date) < 7
                  && (w == Weekday(now.wall.date) ==> d == now.wall.date))
  {
    ParseTimeIsClassDate(rule, strptime, input, now, localize);
    if WeekDate(input, now.wall.date).Ok? {
      WeekDateIsNamedDay(input, now.wall.date);
    }
  }

  /** Time-only class: today's date in the target timezone. */
  lemma TimeClassDate(rule: RollRule, strptime: Strptime, input: string, now: Aware, localize: Localize)
    requires ValidDateTime(now.wall)
    requires Chosen(strptime, input).Some? && Chosen(strptime, input).value.0 == TimeOnly
    ensures ParseTime(rule, strptime, input, now, localize).Ok?
    ensures ParseTime(rule, strptime, input, now, localize).value.at.wall.date == now.wall.date
  {
    ParseTimeIsClassDate(rule, strptime, input, now, localize);
  }

  /** Complete class: the parsed date is used verbatim. */
  lemma CompleteClassDate(rule: RollRule, strptime: Strptime, input: string, now: Aware, localize: Localize)
    requires ValidDateTime(now.wall)
    requires Chosen(strptime, input).Some? && Chosen(strptime, input).value.0 == Complete
    ensures var f := Chosen(strptime, input).value.1;
            ParseTime(rule, strptime, input, now, localize)
              == Ok(TimeResult(Localized(localize, ClockOn(Date(f.year, f.month, f.day), f)), Complete, "%Y-%m-%d, %H:%M"))
  {
    ParseTimeIsClassDate(rule, strptime, input, now, localize);
  }

  /** Day-of-month class: a day missing from now's month is an error; otherwise the
      candidate on now's year and month moves exactly one calendar month on iff the
      rule says so (as written: iff the localized candidate is later than now). */
  lemma DayClassRoll(rule: RollRule, strptime: Strptime, input: string, now: Aware, localize: Localize)
    requires ValidDateTime(now.wall)
    requires Chosen(strptime, input).Some? && Chosen(strptime, input).value.0 == DayOfMonth
    ensures var f := Chosen(strptime, input).value.1;
            var today := now.wall.date;
            var r := ParseTime(rule, strptime, input, now, localize);
            && (r == Err(DayOutOfRange) <==> f.day > DaysInMonth(today.year, today.month))
            && (r.Ok? <==> f.day <= DaysInMonth(today.year, today.month))
            && (r.Ok? ==>
                  var candidate := ClockOn(Date(today.year, today.month, f.day), f);
                  && ValidDateTime(candidate)
                  && (Rolls(rule, Localized(localize, candidate), now) ==>
                        r.value.at.wall == ClockOn(AddOneMonth(candidate.date), f))
                  && (!Rolls(rule, Localized(localize, candidate), now) ==> r.value.at.wall == candidate))
  {
    ParseTimeIsClassDate(rule, strptime, input, now, localize);
  }

  // ---------------------------------------------------------------------------
  // The roll-forward test: as written and as intended
  // ---------------------------------------------------------------------------

  /** As written, a day-of-month result that stays in the current month is never later
      than now: the test moves every upcoming day a month away and keeps every past one. */
  lemma AsWrittenKeepsOnlyPastDays(strptime: Strptime, input: string, now: Aware, localize: Localize)
    requires ValidDateTime(now.wall)
    requires Chosen(strptime, input).Some? && Chosen(strptime, input).value.0 == DayOfMonth
    requires ParseTime(RollIfLater, strptime, input, now, localize).Ok?
    requires ParseTime(RollIfLater, strptime, input, now, localize).value.at.wall.date.month == now.wall.date.month
    ensures Instant(ParseTime(RollIfLater, strptime, input, now, localize).value.at) <= Instant(now)
  {
    DayClassRoll(RollIfLater, strptime, input, now, localize);
  }

  /** Day 15 at 14:00, the rest left at strptime's defaults. */
  function Fifteenth14(): Parsed {
    Fields(1900, 1, 15, 14, 0)
  }

  /** A strptime that only reads "15, 14:00", with the pattern "%d, %H:%M". */
  function DayFifteenAt14(): Strptime {
    (text: string, pattern: string) =>
      if text == "15, 14:00" && pattern == "%d, %H:%M" then Some(Fifteenth14()) else None
  }

  /** A timezone at UTC all year. */
  function Utc(): Localize {
    (t: DateTime) => 0
  }

  /** Now: 2024-03-10 12:00 UTC. */
  function March10Noon(): Aware {
    Aware(DateTime(Date(2024, 3, 10), 12, 0, 0, 0), 0)
  }

  /** Of the accepted formats, the demo strptime reads "15, 14:00" only with
      "%d, %H:%M", so that is the format `parse_time` settles on. */
  lemma DayFifteenChosen()
    ensures Chosen(DayFifteenAt14(), "15, 14:00") == Some((DayOfMonth, Fifteenth14()))
  {
    var m := DayFifteenAt14();
    var input := "15, 14:00";
    assert m(input, AcceptedFormats[10].pattern) == Some(Fifteenth14());
    EarlierPatternsDiffer();
    var r := FirstFormat(AcceptedFormats, m, input, 0);
    assert r.Some? && r.value.0 <= 10;
    assert r == Some((10, Fifteenth14()));
  }

  lemma EarlierPatternsDiffer()
    ensures forall j :: 0 <= j < 10 ==> AcceptedFormats[j].pattern != "%d, %H:%M"
  {
    forall j | 0 <= j < 10
      ensures AcceptedFormats[j].pattern != "%d, %H:%M"
    {
      if j < 8 {
        assert AcceptedFormats[j].pattern[1] != 'd';
      } else {
        assert |AcceptedFormats[j].pattern| != 9;
      }
    }
  }

  /** 15 March at 14:00 UTC is later than 10 March at noon UTC. */
  lemma FifteenthIsUpcoming()
    ensures var candidate := ClockOn(Date(2024, 3, 15), Fifteenth14());
            ValidDateTime(candidate) && Instant(Localized(Utc(), candidate)) > Instant(March10Noon())
  {
    var now := March10Noon();
    var candidate := ClockOn(Date(2024, 3, 15), Fifteenth14());
    assert Ordinal(candidate.date) == Ordinal(now.wall.date) + 5;
    LaterDayLaterWall(now.wall, candidate);
  }

  /** On 10 March at noon, "15, 14:00" as written resolves to 15 April, a month later
      than the 15 March it names, which has not come yet. */
  lemma AsWrittenSkipsUpcomingDay()
    ensures ParseTime(RollIfLater, DayFifteenAt14(), "15, 14:00", March10Noon(), Utc())
            == Ok(TimeResult(Aware(DateTime(Date(2024, 4, 15), 14, 0, 0, 0), 0), DayOfMonth, "%B %d, %H:%M"))
  {
    DayFifteenChosen();
    FifteenthIsUpcoming();
    DayClassRoll(RollIfLater, DayFifteenAt14(), "15, 14:00", March10Noon(), Utc());
    assert AddOneMonth(Date(2024, 3, 15)) == Date(2024, 4, 15);
  }

  /** Read as intended, the same expression on the same day names 15 March. */
  lemma CorrectedKeepsUpcomingDay()
    ensures ParseTime(RollIfPassed, DayFifteenAt14(), "15, 14:00", March10Noon(), Utc())
            == Ok(TimeResult(Aware(DateTime(Date(2024, 3, 15), 14, 0, 0, 0), 0), DayOfMonth, "%B %d, %H:%M"))
  {
    DayFifteenChosen();
    FifteenthIsUpcoming();
    DayClassRoll(RollIfPassed, DayFifteenAt14(), "15, 14:00", March10Noon(), Utc());
  }

  /** As intended, a day-of-month result is never behind now: one kept in the current
      month is not earlier than now, and one moved on lies in the next month, on a later
      wall-clock day than today. */
  lemma CorrectedNeverPast(strptime: Strptime, input: string, now: Aware, localize: Localize)
    requires ValidDateTime(now.wall)
    requires Chosen(strptime, input).Some? && Chosen(strptime, input).value.0 == DayOfMonth
    requires ParseTime(RollIfPassed, strptime, input, now, localize).Ok?
    ensures var t := ParseTime(RollIfPassed, strptime, input, now, localize).value.at;
            || (t.wall.date.month == now.wall.date.month && Instant(t) >= Instant(now))
            || (t.wall.date.month != now.wall.date.month && Ordinal(t.wall.date) > Ordinal(now.wall.date)
                && WallMicros(t.wall) > WallMicros(now.wall))
  {
    DayClassRoll(RollIfPassed, strptime, input, now, localize);
    var f := Chosen(strptime, input).value.1;
    var today := now.wall.date;
    var candidate := ClockOn(Date(today.year, today.month, f.day), f);
    var t := ParseTime(RollIfPassed, strptime, input, now, localize).value.at;
    if Rolls(RollIfPassed, Localized(localize, candidate), now) {
      var d := AddOneMonth(candidate.date);
      NextMonthIsLater(today, d);
      LaterDayLaterWall(now.wall, t.wall);
    }
  }
}
