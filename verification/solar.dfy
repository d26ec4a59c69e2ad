/** `colorTime`, `strfdelta` and `sunrise_sunset`: the colour and icon of a time box from
    the sun's elevation, and the table of twilight times and day length. The solar
    computations themselves are astral's and enter as values. */
module Solar {
  import opened Wrappers
  import opened Text
  import opened Calendar

  // ---------------------------------------------------------------------------
  // colorTime
  // ---------------------------------------------------------------------------

  /** The state of the sun `colorTime` reports. */
  datatype Band = Day | CivilSunset | CivilSunrise | NauticalSunset | NauticalSunrise | Night {

    predicate IsCivil() { this == CivilSunset || this == CivilSunrise }

    predicate IsNautical() { this == NauticalSunset || this == NauticalSunrise }

    predicate IsSunsetSide() { this == CivilSunset || this == NauticalSunset }

    /** How high the sun is, in steps: night, nautical twilight, civil twilight, day. */
    function Rank(): nat {
      match this
      case Night => 0
      case NauticalSunset => 1
      case NauticalSunrise => 1
      case CivilSunset => 2
      case CivilSunrise => 2
      case Day => 3
    }
  }

  /** The box colour of each band. */
  function Color(b: Band): string {
    match b
    case Day => "ffca28"
    case CivilSunset => "f85908"
    case NauticalSunset => "2131a6"
    case CivilSunrise => "fd88c2"
    case NauticalSunrise => "2131a6"
    case Night => "070555"
  }

  /** The emoji of each band. */
  function Icon(b: Band): string {
    match b
    case Day => ":sun_with_face:"
    case CivilSunset => ":sun_with_face: :arrow_down:"
    case CivilSunrise => ":sun_with_face: :arrow_up:"
    case NauticalSunset => ":last_quarter_moon_with_face: :arrow_up:"
    case NauticalSunrise => ":last_quarter_moon_with_face: :arrow_down:"
    case Night => ":last_quarter_moon_with_face:"
  }

  /** The icon tells every band apart. */
  lemma IconSeparatesBands(a: Band, b: Band)
    ensures Icon(a) == Icon(b) <==> a == b
  {
  }

  /** The colour tells every band apart except the two nautical ones, which share
      "2131a6". */
  lemma ColorSeparatesBands(a: Band, b: Band)
    ensures Color(a) == Color(b) <==> a == b || (a.IsNautical() && b.IsNautical())
  {
  }

  const NoonSecond: int := 43200

  /** The solar midnight (an instant, in microseconds) the side of a twilight is judged
      against: astral's `solar_midnight` of the date, one day later when the local
      clock is past 12:00:00. */
  function MidnightRef(date: Aware, solarMidnight: int): (m: int)
    requires ValidDateTime(date.wall)
    ensures SecondOfDay(date.wall) <= NoonSecond ==> m == solarMidnight
    ensures SecondOfDay(date.wall) > NoonSecond ==> m - solarMidnight == MicrosPerDay
  {
    if SecondOfDay(date.wall) > NoonSecond then solarMidnight + MicrosPerDay else solarMidnight
  }

  /** `colorTime(date, ...)` with astral's elevation angle (degrees) and solar midnight
      supplied: strict thresholds at 2, -6 and -12 degrees; inside the two twilight
      bands, before the reference midnight is the sunset side. */
  function ColorTime(date: Aware, angle: real, solarMidnight: int): (b: Band)
    requires ValidDateTime(date.wall)
    ensures b == Day <==> angle > 2.0
    ensures b.IsCivil() <==> -6.0 < angle <= 2.0
    ensures b.IsNautical() <==> -12.0 < angle <= -6.0
    ensures b == Night <==> angle <= -12.0
    ensures (b.IsCivil() || b.IsNautical()) ==>
              (b.IsSunsetSide() <==> Instant(date) < MidnightRef(date, solarMidnight))
  {
    var evening := Instant(date) < MidnightRef(date, solarMidnight);
    if angle > 2.0 then Day
    else if angle > -6.0 then (if evening then CivilSunset else CivilSunrise)
    else if angle > -12.0 then (if evening then NauticalSunset else NauticalSunrise)
    else Night
  }

  /** The pair `colorTime` returns. */
  function ColorTimeOutput(date: Aware, angle: real, solarMidnight: int): (string, string)
    requires ValidDateTime(date.wall)
  {
    var b := ColorTime(date, angle, solarMidnight);
    (Color(b), Icon(b))
  }

  /** A higher sun never gives a lower band. */
  lemma ColorTimeMonotone(date: Aware, low: real, high: real, solarMidnight: int)
    requires ValidDateTime(date.wall)
    requires low <= high
    ensures ColorTime(date, low, solarMidnight).Rank() <= ColorTime(date, high, solarMidnight).Rank()
  {
  }

  /** The thresholds are strict: exactly 2 degrees is civil twilight, exactly -6 is
      nautical and exactly -12 is night. */
  lemma ColorTimeThresholds(date: Aware, solarMidnight: int)
    requires ValidDateTime(date.wall)
    ensures ColorTime(date, 2.0, solarMidnight).IsCivil()
    ensures ColorTime(date, -6.0, solarMidnight).IsNautical()
    ensures ColorTime(date, -12.0, solarMidnight) == Night
    ensures ColorTimeOutput(date, -8.0, solarMidnight).0 == "2131a6"
  {
  }

  /** In the afternoon the reference is the coming night's midnight: a twilight before
      the next day's solar midnight is on the sunset side. */
  lemma AfternoonTwilightIsSunset(date: Aware, angle: real, solarMidnight: int)
    requires ValidDateTime(date.wall)
    requires -12.0 < angle <= 2.0
    requires SecondOfDay(date.wall) > NoonSecond
    requires Instant(date) < solarMidnight + MicrosPerDay
    ensures ColorTime(date, angle, solarMidnight).IsSunsetSide()
  {
  }

  // ---------------------------------------------------------------------------
  // strfdelta
  // ---------------------------------------------------------------------------

  /** `timedelta.seconds` of a duration given in microseconds: the whole seconds left
      once the (floored) days are taken out. */
  function TimedeltaSeconds(micros: int): (s: nat)
    ensures s < SecondsPerDay
  {
    (micros % MicrosPerDay) / MicrosPerSecond
  }

  /** `strfdelta(delta, '{H} h {M} min')`: hours and minutes of `timedelta.seconds`,
      without zero padding. */
  function Strfdelta(micros: int): string {
    var s := TimedeltaSeconds(micros);
    NatToString(s / 3600) + " h " + NatToString(s % 3600 / 60) + " min"
  }

  /** The text reads back as the hours and minutes of the seconds part: `h` and `m` are
      the only numbers with `3600 h + 60 m` within the last minute before it. */
  lemma StrfdeltaReadsBack(micros: int)
    ensures exists h: nat, m: nat ::
      && h < 24 && m < 60
      && 0 <= TimedeltaSeconds(micros) - (3600 * h + 60 * m) < 60
      && Strfdelta(micros) == NatToString(h) + " h " + NatToString(m) + " min"
  {
    var s := TimedeltaSeconds(micros);
    var h := s / 3600;
    var m := s % 3600 / 60;
    assert s == 3600 * h + s % 3600;
    assert s % 3600 == 60 * m + s % 3600 % 60;
    assert h < 24 && m < 60;
    assert 0 <= s - (3600 * h + 60 * m) < 60;
    assert Strfdelta(micros) == NatToString(h) + " h " + NatToString(m) + " min";
  }

  /** The days of the duration are dropped. */
  lemma StrfdeltaDropsDays(micros: int, days: int)
    ensures Strfdelta(micros + days * MicrosPerDay) == Strfdelta(micros)
  {
    ModDays(micros, days);
  }

  lemma ModDays(x: int, k: int)
    ensures (x + k * MicrosPerDay) % MicrosPerDay == x % MicrosPerDay
  {
    var q := x / MicrosPerDay;
    var r := x % MicrosPerDay;
    assert x + k * MicrosPerDay == (q + k) * MicrosPerDay + r;
  }

  /** A whole day renders as no time at all. */
  lemma FullDayRendersAsZero()
    ensures Strfdelta(MicrosPerDay) == "0 h 0 min"
  {
    assert TimedeltaSeconds(MicrosPerDay) == 0;
  }

  /** Day and night seconds add up to a whole day, or one second less when the day
      length has a fraction of a second (both parts are floored). */
  lemma DayAndNightSeconds(d: int)
    requires 0 < d < MicrosPerDay
    ensures TimedeltaSeconds(d) + TimedeltaSeconds(MicrosPerDay - d)
            == if d % MicrosPerSecond == 0 then SecondsPerDay else SecondsPerDay - 1
  {
    var q := d / MicrosPerSecond;
    var r := d % MicrosPerSecond;
    assert d == q * MicrosPerSecond + r;
    assert TimedeltaSeconds(d) == q;
    if r == 0 {
      assert MicrosPerDay - d == (SecondsPerDay - q) * MicrosPerSecond;
      assert TimedeltaSeconds(MicrosPerDay - d) == SecondsPerDay - q;
    } else {
      assert MicrosPerDay - d == (SecondsPerDay - q - 1) * MicrosPerSecond + (MicrosPerSecond - r);
      assert TimedeltaSeconds(MicrosPerDay - d) == SecondsPerDay - q - 1;
    }
  }

  // ---------------------------------------------------------------------------
  // sunrise_sunset
  // ---------------------------------------------------------------------------

  /** The `solar_depression` setting of astral's dawn and dusk. */
  datatype Depression = Astronomical | Nautical | Civil

  /** What astral answers for one place and date; `None` stands for `AstralError` (the
      sun never reaches that elevation that day). Instants are in microseconds. */
  datatype Astral = Astral(
    dawn: Depression -> Option<int>,
    dusk: Depression -> Option<int>,
    sunrise: Option<int>,
    sunset: Option<int>,
    noon: Option<int>,
    midnight: Option<int>,
    daylight: Option<(int, int)>,
    elevation: real)

  /** A value of the report: a time, `False` for an astral error, or a day length text. */
  datatype Entry = At(instant: int) | Failed | Length(text: string)

  /** The ten time keys, in the order `sunrise_sunset` fills them. */
  const MetricKeys: seq<string> := ["ra", "rn", "rc", "r", "sol_n", "sol_m", "s", "sc", "sn", "sa"]

  /** The astral answer each time key asks for. */
  function Metric(a: Astral, key: string): Option<int> {
    match key
    case "ra" => a.dawn(Astronomical)
    case "rn" => a.dawn(Nautical)
    case "rc" => a.dawn(Civil)
    case "r" => a.sunrise
    case "sol_n" => a.noon
    case "sol_m" => a.midnight
    case "s" => a.sunset
    case "sc" => a.dusk(Civil)
    case "sn" => a.dusk(Nautical)
    case "sa" => a.dusk(Astronomical)
    case _ => None
  }

  function EntryOf(o: Option<int>): Entry {
    match o
    case Some(t) => At(t)
    case None => Failed
  }

  /** The depression a key's second letter names. */
  function DepressionOf(c: char): Option<Depression> {
    match c
    case 'a' => Some(Astronomical)
    case 'n' => Some(Nautical)
    case 'c' => Some(Civil)
    case _ => None
  }

  /** Dawn keys start with 'r' and dusk keys with 's', and the second letter names the
      depression astral is set to. */
  lemma TwilightKeysNameTheirDepression(a: Astral, key: string)
    requires key in MetricKeys && |key| == 2 && DepressionOf(key[1]).Some?
    ensures key[0] == 'r' ==> Metric(a, key) == a.dawn(DepressionOf(key[1]).value)
    ensures key[0] == 's' ==> Metric(a, key) == a.dusk(DepressionOf(key[1]).value)
    ensures key[0] == 'r' || key[0] == 's'
  {
  }

  /** The time keys from position `k` on that `types` asks for, added to `sun`. */
  function AddMetrics(types: seq<string>, a: Astral, k: nat, sun: map<string, Entry>): (r: map<string, Entry>)
    requires k <= |MetricKeys|
    ensures forall key :: key in r <==> key in sun || (key in MetricKeys[k..] && key in types)
    ensures forall key :: key in MetricKeys[k..] && key in types ==> r[key] == EntryOf(Metric(a, key))
    ensures forall key :: key in sun && key !in MetricKeys[k..] ==> r[key] == sun[key]
    decreases |MetricKeys| - k
  {
    if k == |MetricKeys| then sun
    else
      var key := MetricKeys[k];
      var next := if key in types then sun[key := EntryOf(Metric(a, key))] else sun;
      assert MetricKeys[k..] == [key] + MetricKeys[k + 1..];
      AddMetrics(types, a, k + 1, next)
  }

  const FullDayText: string := "24 h 00 min"
  const NoTimeText: string := "0 h 00 min"

  /** The day and night lengths: from astral's daylight interval when it has one, and
      otherwise a whole day or nothing, by whether the sun is above the horizon. */
  function DayNight(a: Astral): (string, string) {
    match a.daylight
    case Some((start, end)) =>
      var delta := end - start;
      (Strfdelta(delta), Strfdelta(MicrosPerDay - delta))
    case None =>
      if a.elevation > 0.0 then (FullDayText, NoTimeText) else (NoTimeText, FullDayText)
  }

  /** Python's truth value of a string. */
  predicate Truthy(s: string) { s != "" }

  /** Which test decides whether the day and night lengths are computed. */
  datatype DayNightTest =
    | AsWritten  // `'day' or 'night' in types`, which Python reads as `'day' or ('night' in types)`
    | Intended   // `'day' in types or 'night' in types`

  predicate WantsDayNight(test: DayNightTest, types: seq<string>) {
    match test
    case AsWritten => Truthy("day") || "night" in types
    case Intended => "day" in types || "night" in types
  }

  lemma LengthKeysAreNotMetrics()
    ensures "day" !in MetricKeys && "night" !in MetricKeys
  {
  }

  /** The report with the day and night lengths added when `test` asks for them. */
  function WithDayNight(test: DayNightTest, types: seq<string>, a: Astral, sun: map<string, Entry>): (r: map<string, Entry>)
    ensures forall key :: key != "day" && key != "night" ==> (key in r <==> key in sun)
    ensures forall key :: key != "day" && key != "night" && key in sun ==> r[key] == sun[key]
    ensures WantsDayNight(test, types) ==> "day" in r && "night" in r
    ensures WantsDayNight(test, types) ==> r["day"] == Length(DayNight(a).0) && r["night"] == Length(DayNight(a).1)
    ensures !WantsDayNight(test, types) ==> r == sun
  {
    if WantsDayNight(test, types) then
      var (day, night) := DayNight(a);
      sun["day" := Length(day)]["night" := Length(night)]
    else sun
  }

  /** `sunrise_sunset(date, ..., types)` with astral's answers for the place and date
      supplied. Under `AsWritten` this is the code as written. */
  function SunReport(test: DayNightTest, types: seq<string>, a: Astral): (r: map<string, Entry>)
    ensures forall key :: key in MetricKeys ==> (key in r <==> key in types)
    ensures forall key :: key in MetricKeys && key in types ==> r[key] == EntryOf(Metric(a, key))
    ensures ("day" in r <==> WantsDayNight(test, types)) && ("night" in r <==> WantsDayNight(test, types))
    ensures WantsDayNight(test, types) ==> r["day"] == Length(DayNight(a).0) && r["night"] == Length(DayNight(a).1)
    ensures forall key :: key in r ==> key in MetricKeys || key == "day" || key == "night"
  {
    assert MetricKeys[0..] == MetricKeys;
    LengthKeysAreNotMetrics();
    var sun := AddMetrics(types, a, 0, map[]);
    WithDayNight(test, types, a, sun)
  }

  /** The day length falls back to a whole day exactly when astral has no daylight
      interval and the sun is up; the night length is then nothing, and the other way
      round when the sun is down. */
  lemma FallbackLengths(test: DayNightTest, types: seq<string>, a: Astral)
    requires a.daylight.None? && WantsDayNight(test, types)
    ensures var r := SunReport(test, types, a);
            && (r["day"] == Length("24 h 00 min") <==> a.elevation > 0.0)
            && (r["night"] == Length("0 h 00 min") <==> a.elevation > 0.0)
            && (a.elevation <= 0.0 ==> r["day"] == Length("0 h 00 min") && r["night"] == Length("24 h 00 min"))
  {
  }

  /** With a daylight interval, the night is what remains of 24 hours: its seconds and
      the day's add up to a whole day, one second less for a fractional day length. */
  lemma NightComplementsDay(test: DayNightTest, types: seq<string>, a: Astral)
    requires a.daylight.Some? && WantsDayNight(test, types)
    requires 0 < a.daylight.value.1 - a.daylight.value.0 < MicrosPerDay
    ensures var d := a.daylight.value.1 - a.daylight.value.0;
            var r := SunReport(test, types, a);
            && r["day"] == Length(Strfdelta(d))
            && r["night"] == Length(Strfdelta(MicrosPerDay - d))
            && SecondsPerDay - 1 <= TimedeltaSeconds(d) + TimedeltaSeconds(MicrosPerDay - d) <= SecondsPerDay
  {
    var d := a.daylight.value.1 - a.daylight.value.0;
    DaylightLengths(a);
    var r := SunReport(test, types, a);
    assert r["day"] == Length(DayNight(a).0) && r["night"] == Length(DayNight(a).1);
    DayAndNightSeconds(d);
  }

  lemma DaylightLengths(a: Astral)
    requires a.daylight.Some?
    ensures var d := a.daylight.value.1 - a.daylight.value.0;
            DayNight(a) == (Strfdelta(d), Strfdelta(MicrosPerDay - d))
  {
  }

  /** As written, the day and night lengths are in every report, whatever `types` asks
      for: the test is always true. */
  lemma AsWrittenAlwaysHasDayNight(types: seq<string>, a: Astral)
    ensures "day" in SunReport(AsWritten, types, a) && "night" in SunReport(AsWritten, types, a)
  {
  }

  /** A report asked only for the sunrise still has day and night lengths as written,
      and has just the sunrise as intended. */
  lemma SunriseOnlyReport(a: Astral)
    ensures "day" in SunReport(AsWritten, ["r"], a)
    ensures SunReport(Intended, ["r"], a).Keys == {"r"}
  {
    AsWrittenAlwaysHasDayNight(["r"], a);
    SunriseOnlyIntended(a);
  }

  lemma SunriseOnlyIntended(a: Astral)
    ensures SunReport(Intended, ["r"], a).Keys == {"r"}
  {
    var r := SunReport(Intended, ["r"], a);
    assert "r" in MetricKeys;
    assert !WantsDayNight(Intended, ["r"]);
    forall key | key in r ensures key == "r" {
      if key in MetricKeys {
        assert key in ["r"];
      }
    }
  }
}
