/** `parse_location`: a place name, with an optional country code, is resolved by three
    ordered scans: the city table, then the country table (redirected to the country's
    capital), then the list of timezone identifiers. */
module Gazetteer {
  import opened Wrappers
  import opened Text

  /** A row of `cities.csv` as util/conversion.py writes it (columns 0 to 7). Rows are
      in decreasing order of population. */
  datatype CityRow = CityRow(
    geonameId: string, name: string, asciiName: string, latitude: string, longitude: string,
    countryCode: string, elevation: string, timezone: string)

  /** A row of `countries.csv` (columns 0 to 4). */
  datatype CountryRow = CountryRow(iso: string, iso3: string, name: string, capital: string, geonameId: string)

  /** The two tables as loaded, and `pytz.all_timezones`. */
  datatype Db = Db(cities: seq<CityRow>, countries: seq<CountryRow>, zones: seq<string>)

  /** The `City` and `Timezone` objects `parse_location` returns; the timezone is kept
      by its identifier. */
  datatype Location =
    | City(name: string, countryCode: string, latitude: string, longitude: string, altitude: string, timezone: string)
    | Timezone(name: string, timezone: string)

  datatype LookupError =
    | NotFound               // the final `raise ValueError`
    | UnknownTimezone(tz: string)  // pytz rejects the timezone of the row a city is built from
    | RowOutOfRange          // the city table is indexed past its end (`IndexError`)
    | CapitalNotListed       // the country's capital has no city row (corrected reading only)

  /** The comparison key `place_lower`, with the New York special case. */
  function Key(place: string): string {
    var k := Lower(place);
    if k == "new york" then "new york city" else k
  }

  /** The key is case-insensitive, has no capitals, and "New York" in any case means
      "new york city". */
  lemma KeyProperties(place: string, other: string)
    ensures forall i :: 0 <= i < |Key(place)| ==> !IsAsciiUpper(Key(place)[i])
    ensures Upper(place) == Upper(other) ==> Key(place) == Key(other)
    ensures Key(place) == "new york city" <==> Lower(place) == "new york" || Lower(place) == "new york city"
  {
    LowerEqualIffSameUpper(place, other);
    assert forall i :: 0 <= i < |"new york city"| ==> !IsAsciiUpper("new york city"[i]);
  }

  /** `wrongTimezones`: US abbreviations mapped to the POSIX-style zone of the region. */
  const WrongTimezones: map<string, string> := map[
    "PST" := "PST8PDT", "PDT" := "PST8PDT", "MST" := "MST7MDT", "MDT" := "MST7MDT",
    "CST" := "CST6CDT", "CDT" := "CST6CDT", "EST" := "EST5EDT", "EDT" := "EST5EDT"]

  /** The raw place after the alias table, as the timezone stage compares it. */
  function Alias(place: string): (r: string)
    ensures place !in WrongTimezones ==> r == place
    ensures place in WrongTimezones ==> r != place && r in ["PST8PDT", "MST7MDT", "CST6CDT", "EST5EDT"]
  {
    if place in WrongTimezones then WrongTimezones[place] else place
  }

  // ---------------------------------------------------------------------------
  // The three scans
  // ---------------------------------------------------------------------------

  /** A city row answers to the key by its name or its ASCII name, and to the country
      code, when one is given, upper-cased. */
  predicate CityMatches(row: CityRow, key: string, code: Option<string>) {
    && (Lower(row.name) == key || Lower(row.asciiName) == key)
    && (code.None? || row.countryCode == Upper(code.value))
  }

  /** The first city row at or after `k` that answers to the key (the loop with `break`). */
  function FirstCity(cities: seq<CityRow>, key: string, code: Option<string>, k: nat): (r: Option<nat>)
    requires k <= |cities|
    ensures r.Some? ==> k <= r.value < |cities| && CityMatches(cities[r.value], key, code)
    ensures r.Some? ==> forall j :: k <= j < r.value ==> !CityMatches(cities[j], key, code)
    ensures r.None? ==> forall j :: k <= j < |cities| ==> !CityMatches(cities[j], key, code)
    decreases |cities| - k
  {
    if k == |cities| then None
    else if CityMatches(cities[k], key, code) then Some(k)
    else FirstCity(cities, key, code, k + 1)
  }

  /** A country row answers to the key by its ISO code or its name. */
  predicate CountryMatches(row: CountryRow, key: string) {
    Lower(row.iso) == key || Lower(row.name) == key
  }

  /** The last country row among the first `n` that answers to the key: the loop over
      the countries has no `break`, so each match overwrites the previous one. */
  function LastCountry(countries: seq<CountryRow>, key: string, n: nat): (r: Option<nat>)
    requires n <= |countries|
    ensures r.Some? ==> r.value < n && CountryMatches(countries[r.value], key)
    ensures r.Some? ==> forall j :: r.value < j < n ==> !CountryMatches(countries[j], key)
    ensures r.None? ==> forall j :: 0 <= j < n ==> !CountryMatches(countries[j], key)
    decreases n
  {
    if n == 0 then None
    else if CountryMatches(countries[n - 1], key) then Some(n - 1)
    else LastCountry(countries, key, n - 1)
  }

  /** A city row is the capital of a country when its ASCII name is the capital's name,
      case included, and its country code is the country's ISO code. */
  predicate IsCapitalRow(row: CityRow, country: CountryRow) {
    row.asciiName == country.capital && row.countryCode == country.iso
  }

  /** The first city row at or after `k` that is `country`'s capital. */
  function CapitalRow(cities: seq<CityRow>, country: CountryRow, k: nat): (r: Option<nat>)
    requires k <= |cities|
    ensures r.Some? ==> k <= r.value < |cities| && IsCapitalRow(cities[r.value], country)
    ensures r.Some? ==> forall j :: k <= j < r.value ==> !IsCapitalRow(cities[j], country)
    ensures r.None? ==> forall j :: k <= j < |cities| ==> !IsCapitalRow(cities[j], country)
    decreases |cities| - k
  {
    if k == |cities| then None
    else if IsCapitalRow(cities[k], country) then Some(k)
    else CapitalRow(cities, country, k + 1)
  }

  /** The `City` built from a row: the country code lower-cased, and the timezone
      checked by pytz unless it is empty. */
  function MakeCity(row: CityRow, zones: seq<string>): (r: Result<Location, LookupError>)
    ensures r.Err? <==> row.timezone != "" && row.timezone !in zones
    ensures r.Err? ==> r.error == UnknownTimezone(row.timezone)
  {
    if row.timezone != "" && row.timezone !in zones then Err(UnknownTimezone(row.timezone))
    else Ok(City(row.name, Lower(row.countryCode), row.latitude, row.longitude, row.elevation, row.timezone))
  }

  /** A city built from a row keeps the row's name, coordinates, elevation and timezone,
      and its country code is the row's with no capital left. */
  lemma MakeCityBuildsCity(row: CityRow, zones: seq<string>)
    requires MakeCity(row, zones).Ok?
    ensures var c := MakeCity(row, zones).value;
            && c.City? && c.name == row.name && c.timezone == row.timezone
            && c.latitude == row.latitude && c.longitude == row.longitude && c.altitude == row.elevation
            && Upper(c.countryCode) == Upper(row.countryCode)
            && forall i :: 0 <= i < |c.countryCode| ==> !IsAsciiUpper(c.countryCode[i])
  {
    UpperOfLower(row.countryCode);
  }

  /** What the country stage does when the capital has no city row. */
  datatype CapitalRule =
    | KeepCountryIndex     // as written: the country's own index is used on the city table
    | ReportMissingCapital // as evidently intended: the data is reported inconsistent

  /** `parse_location(place, countrySpecified)` over the tables `db`. Under
      `KeepCountryIndex` this is the code as written. */
  function Resolve(rule: CapitalRule, db: Db, place: string, code: Option<string>): (r: Result<Location, LookupError>)
    ensures r.Ok? && r.value.Timezone? ==> r.value == Timezone(Alias(place), Alias(place))
  {
    var key := Key(place);
    match FirstCity(db.cities, key, code, 0)
    case Some(i) => MakeCity(db.cities[i], db.zones)
    case None =>
      match LastCountry(db.countries, key, |db.countries|)
      case Some(j) =>
        (match CapitalRow(db.cities, db.countries[j], 0)
         case Some(i) => MakeCity(db.cities[i], db.zones)
         case None =>
           match rule
           case KeepCountryIndex => if j < |db.cities| then MakeCity(db.cities[j], db.zones) else Err(RowOutOfRange)
           case ReportMissingCapital => Err(CapitalNotListed))
      case None =>
        var tz := Alias(place);
        if tz in db.zones then Ok(Timezone(tz, tz)) else Err(NotFound)
  }

  /** Not found exactly when no city, no country and no timezone answers to the place. */
  lemma ResolveNotFound(rule: CapitalRule, db: Db, place: string, code: Option<string>)
    ensures Resolve(rule, db, place, code) == Err(NotFound) <==>
              && (forall i :: 0 <= i < |db.cities| ==> !CityMatches(db.cities[i], Key(place), code))
              && (forall j :: 0 <= j < |db.countries| ==> !CountryMatches(db.countries[j], Key(place)))
              && Alias(place) !in db.zones
  {
    var r := Resolve(rule, db, place, code);
    var f := FirstCity(db.cities, Key(place), code, 0);
    if f.Some? {
      assert r == MakeCity(db.cities[f.value], db.zones);
    } else {
      var n := LastCountry(db.countries, Key(place), |db.countries|);
      if n.Some? {
        assert r != Err(NotFound);
      }
    }
  }

  /** A timezone is returned only after both tables miss, and only when the place,
      after the alias table, is a timezone identifier. */
  lemma ResolveTimezoneAfterMisses(rule: CapitalRule, db: Db, place: string, code: Option<string>)
    requires Resolve(rule, db, place, code).Ok? && Resolve(rule, db, place, code).value.Timezone?
    ensures forall i :: 0 <= i < |db.cities| ==> !CityMatches(db.cities[i], Key(place), code)
    ensures forall j :: 0 <= j < |db.countries| ==> !CountryMatches(db.countries[j], Key(place))
    ensures Alias(place) in db.zones
  {
    var f := FirstCity(db.cities, Key(place), code, 0);
    if f.None? {
      var n := LastCountry(db.countries, Key(place), |db.countries|);
      assert n.None?;
    }
  }

  /** A city is always built from some row of the city table. */
  lemma ResolveCityFromRow(rule: CapitalRule, db: Db, place: string, code: Option<string>)
    requires Resolve(rule, db, place, code).Ok? && Resolve(rule, db, place, code).value.City?
    ensures exists i :: 0 <= i < |db.cities| && Resolve(rule, db, place, code) == MakeCity(db.cities[i], db.zones)
  {
    var r := Resolve(rule, db, place, code);
    var f := FirstCity(db.cities, Key(place), code, 0);
    if f.Some? {
      assert r == MakeCity(db.cities[f.value], db.zones);
    } else {
      var n := LastCountry(db.countries, Key(place), |db.countries|);
      assert n.Some?;
      var m := CapitalRow(db.cities, db.countries[n.value], 0);
      if m.Some? {
        assert r == MakeCity(db.cities[m.value], db.zones);
      } else {
        assert rule == KeepCountryIndex && n.value < |db.cities|;
        assert r == MakeCity(db.cities[n.value], db.zones);
      }
    }
  }

  // ---------------------------------------------------------------------------
  // The stages
  // ---------------------------------------------------------------------------

  /** City stage: the first row, in table order, that answers to the key and the code
      gives the result, whatever the country table and the timezone list hold. */
  lemma CityStageFirstMatch(rule: CapitalRule, db: Db, place: string, code: Option<string>, i: nat)
    requires i < |db.cities| && CityMatches(db.cities[i], Key(place), code)
    requires forall j :: 0 <= j < i ==> !CityMatches(db.cities[j], Key(place), code)
    ensures Resolve(rule, db, place, code) == MakeCity(db.cities[i], db.zones)
  {
    var r := FirstCity(db.cities, Key(place), code, 0);
    assert r.Some? && r.value <= i;
  }

  /** With the city rows in decreasing order of population, among homonyms the most
      populous city is chosen. */
  lemma CityStageMostPopulous(rule: CapitalRule, db: Db, place: string, code: Option<string>, population: seq<int>, k: nat)
    requires |population| == |db.cities|
    requires forall a, b :: 0 <= a < b < |population| ==> population[a] >= population[b]
    requires k < |db.cities| && CityMatches(db.cities[k], Key(place), code)
    ensures exists i :: 0 <= i < |db.cities| && CityMatches(db.cities[i], Key(place), code)
                        && population[i] >= population[k]
                        && Resolve(rule, db, place, code) == MakeCity(db.cities[i], db.zones)
  {
    var r := FirstCity(db.cities, Key(place), code, 0);
    assert r.Some?;
    var i := r.value;
    assert i <= k;
    CityStageFirstMatch(rule, db, place, code, i);
  }

  /** Country stage: with no city answering to the key, the last country row that does
      is taken, and the result is the first city row that is its capital. */
  lemma CountryStageLastMatch(rule: CapitalRule, db: Db, place: string, code: Option<string>, j: nat, i: nat)
    requires forall c :: 0 <= c < |db.cities| ==> !CityMatches(db.cities[c], Key(place), code)
    requires j < |db.countries| && CountryMatches(db.countries[j], Key(place))
    requires forall c :: j < c < |db.countries| ==> !CountryMatches(db.countries[c], Key(place))
    requires i < |db.cities| && IsCapitalRow(db.cities[i], db.countries[j])
    requires forall c :: 0 <= c < i ==> !IsCapitalRow(db.cities[c], db.countries[j])
    ensures Resolve(rule, db, place, code) == MakeCity(db.cities[i], db.zones)
  {
    var key := Key(place);
    assert FirstCity(db.cities, key, code, 0).None?;
    var n := LastCountry(db.countries, key, |db.countries|);
    assert n == Some(j);
    var m := CapitalRow(db.cities, db.countries[j], 0);
    assert m == Some(i);
  }

  /** The country code only narrows the city stage: once no city answers to the place
      at all, the result does not depend on the code. */
  lemma CodeIgnoredAfterCityStage(rule: CapitalRule, db: Db, place: string, code: Option<string>)
    requires forall c :: 0 <= c < |db.cities| ==> !CityMatches(db.cities[c], Key(place), None)
    ensures Resolve(rule, db, place, code) == Resolve(rule, db, place, None)
  {
    assert forall c :: 0 <= c < |db.cities| ==> !CityMatches(db.cities[c], Key(place), code);
  }

  /** The country code is compared upper-cased, so its case does not matter. */
  lemma CodeCaseIgnored(rule: CapitalRule, db: Db, place: string, code: string, other: string)
    requires Upper(code) == Upper(other)
    ensures Resolve(rule, db, place, Some(code)) == Resolve(rule, db, place, Some(other))
  {
    assert forall c :: 0 <= c < |db.cities| ==>
      (CityMatches(db.cities[c], Key(place), Some(code)) <==> CityMatches(db.cities[c], Key(place), Some(other)));
    var a := FirstCity(db.cities, Key(place), Some(code), 0);
    var b := FirstCity(db.cities, Key(place), Some(other), 0);
    if a.Some? {
      assert b.Some?;
      CityStageFirstMatch(rule, db, place, Some(other), a.value);
    }
  }

  /** Timezone stage: with neither a city nor a country answering to the key, the raw
      place, after the alias table, must be a timezone identifier exactly; an alias such
      as "PST" therefore reaches the timezone stage as "PST8PDT". */
  lemma TimezoneStage(rule: CapitalRule, db: Db, place: string, code: Option<string>)
    requires forall c :: 0 <= c < |db.cities| ==> !CityMatches(db.cities[c], Key(place), code)
    requires forall c :: 0 <= c < |db.countries| ==> !CountryMatches(db.countries[c], Key(place))
    ensures Alias(place) in db.zones ==> Resolve(rule, db, place, code) == Ok(Timezone(Alias(place), Alias(place)))
    ensures Alias(place) !in db.zones ==> Resolve(rule, db, place, code) == Err(NotFound)
  {
  }

  /** An abbreviation resolves like the identifier it stands for only when neither
      spelling is the name of a city or a country: the alias is applied to the timezone
      stage alone. */
  lemma AliasMatchesCanonical(rule: CapitalRule, db: Db, place: string, code: Option<string>)
    requires place in WrongTimezones
    requires forall c :: 0 <= c < |db.cities| ==>
               !CityMatches(db.cities[c], Key(place), code) && !CityMatches(db.cities[c], Key(Alias(place)), code)
    requires forall c :: 0 <= c < |db.countries| ==>
               !CountryMatches(db.countries[c], Key(place)) && !CountryMatches(db.countries[c], Key(Alias(place)))
    ensures Resolve(rule, db, place, code) == Resolve(rule, db, Alias(place), code)
  {
    assert Alias(Alias(place)) == Alias(place);
    TimezoneStage(rule, db, place, code);
    TimezoneStage(rule, db, Alias(place), code);
  }

  /** The alias table is consulted with the place as typed: "pst" is not an alias. */
  lemma AliasIsCaseSensitive()
    ensures Alias("PST") == "PST8PDT" && Alias("pst") == "pst"
  {
  }

  // ---------------------------------------------------------------------------
  // A country whose capital has no city row
  // ---------------------------------------------------------------------------

  /** A result is sound when it is a city answering to the key, the capital of a
      country answering to it, or the timezone the place names. */
  ghost predicate FromPlace(db: Db, place: string, code: Option<string>, loc: Location) {
    || (exists i :: 0 <= i < |db.cities| && CityMatches(db.cities[i], Key(place), code)
                    && MakeCity(db.cities[i], db.zones) == Ok(loc))
    || (exists i, j :: 0 <= i < |db.cities| && 0 <= j < |db.countries|
                    && CountryMatches(db.countries[j], Key(place)) && IsCapitalRow(db.cities[i], db.countries[j])
                    && MakeCity(db.cities[i], db.zones) == Ok(loc))
    || (Alias(place) in db.zones && loc == Timezone(Alias(place), Alias(place)))
  }

  /** Read as intended, every location found is one the place names. */
  lemma CorrectedResultFromPlace(db: Db, place: string, code: Option<string>)
    requires Resolve(ReportMissingCapital, db, place, code).Ok?
    ensures FromPlace(db, place, code, Resolve(ReportMissingCapital, db, place, code).value)
  {
    var key := Key(place);
    var r := Resolve(ReportMissingCapital, db, place, code);
    var f := FirstCity(db.cities, key, code, 0);
    if f.None? {
      var n := LastCountry(db.countries, key, |db.countries|);
      if n.Some? {
        var m := CapitalRow(db.cities, db.countries[n.value], 0);
        assert m.Some?;
        assert MakeCity(db.cities[m.value], db.zones) == Ok(r.value);
      }
    }
  }

  const ParisRow: CityRow := CityRow("2988507", "Paris", "Paris", "48.85341", "2.3488", "FR", "42", "Europe/Paris")
  const ArgentinaRow: CountryRow := CountryRow("AR", "ARG", "Argentina", "Buenos Aires", "3865483")

  /** A city table without Buenos Aires, and Argentina first among the countries. */
  function NoCapitalDb(): Db {
    Db([ParisRow], [ArgentinaRow], ["Europe/Paris"])
  }

  /** The facts about the demo tables both readings rely on: no city answers to
      "Argentina", Argentina does, and Paris is not its capital. */
  lemma ArgentinaLookupFacts()
    ensures Key("Argentina") == "argentina"
    ensures !CityMatches(ParisRow, "argentina", None)
    ensures CountryMatches(ArgentinaRow, "argentina")
    ensures !IsCapitalRow(ParisRow, ArgentinaRow)
  {
    assert Lower("Paris") == "paris";
    assert Lower("Paris") != "argentina";
    assert Lower(ArgentinaRow.name) == "argentina";
  }

  /** As written, "Argentina" resolves to Paris: the capital lookup fails, and the
      country's index 0 is used on the city table. */
  lemma AsWrittenArgentinaIsParis()
    ensures Resolve(KeepCountryIndex, NoCapitalDb(), "Argentina", None)
            == Ok(City("Paris", "fr", "48.85341", "2.3488", "42", "Europe/Paris"))
    ensures !FromPlace(NoCapitalDb(), "Argentina", None, Resolve(KeepCountryIndex, NoCapitalDb(), "Argentina", None).value)
  {
    ArgentinaLookupFacts();
    assert Lower("FR") == "fr";
    ParisIsNotFromArgentina();
  }

  /** Paris is neither a city called "Argentina", nor Argentina's capital, nor a
      timezone called "Argentina". */
  lemma ParisIsNotFromArgentina()
    ensures !FromPlace(NoCapitalDb(), "Argentina", None, City("Paris", "fr", "48.85341", "2.3488", "42", "Europe/Paris"))
  {
    ArgentinaLookupFacts();
    assert Alias("Argentina") == "Argentina";
  }

  /** Read as intended, the same lookup reports the missing capital. */
  lemma CorrectedArgentinaIsReported()
    ensures Resolve(ReportMissingCapital, NoCapitalDb(), "Argentina", None) == Err(CapitalNotListed)
  {
    ArgentinaLookupFacts();
  }
}
