# ailotime resolution pipeline in Dafny

This project models the core of the ailotime chat bot (`ailotime.py`), which answers
questions such as "what time is it in Reykjavík?", "15:30 at Aix-en-Provence (FR)
to Tokyo, PST" and "when does the sun rise in Paris?". The core is four steps, each
modelled as pure functions, with the library calls passed in as values.

1. **Phrase extraction** (module `Phrases`). `parse_input_time`, `parse_input_sun`
   and `parse_input_conv` split the chat text into a time text, a source place and
   target places. `separateCountryCodes` peels a trailing `(XX)` country code off a
   place.
   - Every regular expression is written out as a decomposition of the text over
     character classes.
   - `\w` is an abstract predicate whose ASCII part is fixed.
   - Where the regex engine has a choice, the model takes the split that greedy
     backtracking settles on: the largest first-group end that still leads to a match.
   - `$` also matches in front of a final newline.
2. **Location resolution** (module `Gazetteer`). `parse_location` makes three ordered
   scans:
   - the city table, first match wins;
   - the country table, last match wins, redirected to the country's capital;
   - the timezone identifiers, after the US-abbreviation alias table.

   The tables are sequences of rows with the column layout that `util/conversion.py`
   writes.
3. **Time-expression inference** (modules `TimeExpr` and `Calendar`). `parse_time`
   tries `acceptedFormats` in order. The first format that parses fixes the
   granularity class and the output pattern. The missing calendar fields are then
   filled in from "now" in the target timezone.
   - `strptime` is an abstract per-format matcher.
   - "now" is an explicit timezone-aware value.
   - pytz's `localize` is a function from wall clock to UTC offset.
   - `Calendar` holds the parts of Python's `datetime` the inference needs: ordinals,
     weekdays, adding days, `relativedelta(months=+1)`, and instants of aware values.
4. **Solar classification and report** (module `Solar`). `colorTime` puts the sun's
   elevation into strict-threshold bands and picks the sunrise or sunset side.
   `sunrise_sunset` builds the keyed report from astral's answers, each of which may
   fail. `strfdelta` renders `timedelta.seconds` as hours and minutes.

`Wrappers` holds `Option` and `Result`. `Text` holds the string operations of Python
the core uses: case mapping, `strip`, `split`, and `str` of a natural number.

In three places the code does something a reader might not expect, and the model
follows the code:
- **Aliases.** An alias such as `PST` is applied to the timezone stage only. A city
  or country row whose name or code is "pst" wins over it (`Gazetteer.AliasMatchesCanonical`
  states when the two resolve alike).
- **Weekday expressions.** A weekday expression naming today gives today's date
  whether or not the hour has passed, so the instant can lie in the past
  (`TimeExpr.WeekClassDate`).
- **Day-of-month expressions.** These move to the next month when the day is still
  ahead, not when it has passed: the comment at `ailotime.py:299` says the opposite of
  the test at `ailotime.py:305` (Findings, first row).

The parse-time and location-lookup functions take a rule parameter that selects the
code as written (`RollIfLater`, `KeepCountryIndex`, `AsWritten`) or the evidently
intended behaviour (`RollIfPassed`, `ReportMissingCapital`, `Intended`). The
"Findings" section compares the two.

## Model

| member | source | states |
|---|---|---|
| Text.Lower | ailotime.py:189 | the model's ASCII `lower` keeps the length, leaves no capital letter and keeps every character's case-insensitive identity |
| Text.LowerEqualIffSameUpper | ailotime.py:189-190 | two texts lower-case alike exactly when they upper-case alike, so lower-case comparison ignores exactly the case |
| Text.StripEnds | ailotime.py:379 | the result of `strip` has no blank at either end |
| Text.StripTrims | ailotime.py:379 | the result of `strip` is the slice of the text after its leading blanks, followed by nothing but blanks |
| Text.StripUnique | ailotime.py:379 | blanks around a text without blank ends are exactly what `strip` removes |
| Text.Split | ailotime.py:374 | `split(',')` gives one more piece than there are commas, no piece contains a comma, and joining the pieces with commas gives the text back |
| Text.SplitJoin | ailotime.py:374 | splitting a comma-join of comma-free pieces gives the pieces back |
| Text.NatToString | ailotime.py:177-179 | `str` of a natural is a non-empty run of digits with no leading zero |
| Text.NatToStringRoundTrip | ailotime.py:177-179 | reading the digits of `str(n)` back gives `n` |
| Phrases.PunctuationIsNotPlace | ailotime.py:339 | parentheses and commas are outside the place class `[\w\s'’`-]` |
| Phrases.SeparateCountryCode | ailotime.py:157-169 | a result exists only for a name of `[A-Za-z0-9'/\-\s]` followed by `(`, two ASCII letters and an optional `)`; it holds the stripped name and the code as typed |
| Phrases.SeparateCountryCodeComplete | ailotime.py:161-167 | every text of that shape is split, with the name stripped and the code not upper-cased |
| Phrases.NoParenNoCode | ailotime.py:161-169 | text without `(` is never split |
| Phrases.PlaceGroup | ailotime.py:339 | the anchored place pattern matches exactly the place bodies, alone or followed by one newline, and captures the body |
| Phrases.ParseTimeInput | ailotime.py:335-354 | malformed exactly when the place pattern does not match; otherwise the captured group, peeled, or kept whole with no code |
| Phrases.TimeInputBareName | ailotime.py:339-349 | a bare name is kept verbatim with no code |
| Phrases.TimeInputCodedName | ailotime.py:339-349 | an ASCII name followed by `(XX)` gives the stripped name and the code as typed |
| Phrases.TimeInputForeignNameKeepsCode | ailotime.py:339-349 | a name with a character outside `[A-Za-z0-9'/\-\s]` keeps its `(XX)` glued to the place and gets no code |
| Phrases.ReykjavikIsNotSplit | ailotime.py:339-349 | "Reykjavík (IS)" stays one place with no code |
| Phrases.SunSplitOf | ailotime.py:444 | a time end is found exactly when some end leaves a "time at place" match; the end found leaves one, and no larger end does |
| Phrases.ParseSunInput | ailotime.py:436-471 | "time at/in place" is taken whenever some split matches, with the longest possible time; otherwise the bare place; otherwise malformed |
| Phrases.SunTimeAtPlace | ailotime.py:444-458 | with no separator inside the place, the time is taken verbatim and the place is peeled |
| Phrases.SunPrefersTimeAtPlace | ailotime.py:448-460 | "noon at Paris" matches the bare place pattern too, yet yields time "noon" at "Paris" |
| Phrases.SourceEndOf | ailotime.py:361 | the source place ends at the largest position followed by ` to `/` into ` and a target list |
| Phrases.ConvSplitOf | ailotime.py:361 | a time-group end is found exactly when some end leads to a match; the end found leads to one, and no larger end does |
| Phrases.ConvSplitFindsParts | ailotime.py:361 | some time-group end leads to a match exactly when a full time/source/targets decomposition of the text exists |
| Phrases.TargetPhrases | ailotime.py:373-384 | one target per comma-separated piece of the list group, so one more than there are commas |
| Phrases.TargetPhrasesOfJoin | ailotime.py:373-384 | places typed between commas, with any blanks around each, come back as the targets in order: the blanks are stripped (`:379`) and each place goes through `separateCountryCodes` (`:380-384`) |
| Phrases.PeelCodedPlace | ailotime.py:161-167 | a target typed as a name and a parenthesised two-letter code becomes the stripped name with the code as typed |
| Phrases.ParseConvInput | ailotime.py:357-389 | accepted exactly when a decomposition exists; the result follows the greedy one (largest time-group end, then the longest source place): the time verbatim, the source peeled without stripping, the targets from the pieces of the list group |
| Calendar.DaysBeforeYearIsClosedForm | ailotime.py:287 | the days before a year, counted by adding up the year lengths, equal the closed form behind Python's `toordinal` and `weekday()` |
| Calendar.AddDays | ailotime.py:287 | adding `n` days to a valid date gives a valid date `n` ordinals later |
| Calendar.AddDaysWeekday | ailotime.py:287 | adding `n` days moves the weekday `n` steps round the week |
| Calendar.AddOneMonth | ailotime.py:306 | `relativedelta(months=+1)` gives the next month, carrying into January of the next year, with the day clamped to that month's length |
| Calendar.NextMonthIsLater | ailotime.py:306 | every day of the following month has a larger ordinal |
| Calendar.LaterDayLaterWall | ailotime.py:305 | a later calendar day is a later wall clock whatever the time of day |
| TimeExpr.FormatsInClassOrder | ailotime.py:25-46 | 20 formats, grouped week, time, day, complete, four per relative class and eight complete ones |
| TimeExpr.FirstFormat | ailotime.py:267-279 | the format found is one strptime accepts, and every earlier one is rejected; none found means strptime rejects them all |
| TimeExpr.WeekdayNumber | ailotime.py:317-327 | a number below 7 whose name is the lower-cased input, and none exactly when the lower-cased input is not a day name |
| TimeExpr.WeekdayNumberOfName | ailotime.py:317-327 | each of monday..sunday, in any case, maps back to its position |
| TimeExpr.WeekdayNumberIgnoresCase | ailotime.py:322 | upper-casing the name does not change its number |
| TimeExpr.LeadingWordOf | ailotime.py:284 | a non-empty run of letters followed by a comma is the leading word |
| TimeExpr.LeadingWeekdayFound | ailotime.py:284-285 | text starting with a weekday name and a comma yields that name and its number |
| TimeExpr.DaysUntil | ailotime.py:287 | the offset is below 7 and lands on the named weekday |
| TimeExpr.NamedDayAhead | ailotime.py:287 | the date reached has the named weekday, lies 0 to 6 days ahead, and is today when today has that weekday |
| TimeExpr.WeekDate | ailotime.py:284-289 | a date exactly when the leading word is a known weekday name |
| TimeExpr.MonthDayDate | ailotime.py:296-306 | an error exactly when now's month has no such day |
| TimeExpr.ParseTime | ailotime.py:256-314 | "no format matches" exactly when strptime rejects all 20; otherwise the class and output pattern of the first accepted format, the parsed hour and minute, zero seconds, and the offset `localize` gives |
| TimeExpr.WeekClassDate | ailotime.py:281-289 | week class: an error exactly when no weekday is read; otherwise the named weekday, 0 to 6 days ahead, today when named, with the hour not compared |
| TimeExpr.TimeClassDate | ailotime.py:291-294 | time class: always succeeds, on now's date |
| TimeExpr.CompleteClassDate | ailotime.py:308-311 | complete class: the parsed date verbatim with pattern `%Y-%m-%d, %H:%M` |
| TimeExpr.DayClassRoll | ailotime.py:296-306 | day class: an error exactly when the day is past the end of now's month; otherwise the candidate in now's month, moved one month on exactly when the rule says so |
| TimeExpr.AsWrittenKeepsOnlyPastDays | ailotime.py:299-306 | as written, a result left in the current month is never later than now |
| TimeExpr.AsWrittenSkipsUpcomingDay | ailotime.py:299-306 | on 10 March at noon, "15, 14:00" gives 15 April |
| TimeExpr.CorrectedKeepsUpcomingDay | ailotime.py:299-306 | read as intended, the same input gives 15 March |
| TimeExpr.CorrectedNeverPast | ailotime.py:299-306 | read as intended, a result is not earlier than now in the current month, or lies on a later day in the next month |
| Gazetteer.KeyProperties | ailotime.py:189-194 | the key has no capitals, ignores case, and is "new york city" exactly for "new york" and "new york city" in any case |
| Gazetteer.Alias | ailotime.py:196-198 | non-aliases are unchanged; the eight abbreviations map to one of the four POSIX-style zones |
| Gazetteer.AliasIsCaseSensitive | ailotime.py:196-198 | the alias table is looked up with the place as typed: `PST` is an alias and `pst` is not |
| Gazetteer.FirstCity | ailotime.py:202-212 | the first row answering to the key, and to the upper-cased code when one is given |
| Gazetteer.LastCountry | ailotime.py:224-227 | the last country answering to the key by ISO code or name |
| Gazetteer.CapitalRow | ailotime.py:233-236 | the first city whose ASCII name is the capital, case included, and whose code is the country's |
| Gazetteer.MakeCity | ailotime.py:216 | an error exactly when a non-empty timezone is unknown, and then the error names that timezone |
| Gazetteer.MakeCityBuildsCity | ailotime.py:216 | a city built from a row has the row's name, latitude, longitude, elevation (as altitude) and timezone, and the row's country code lower-cased |
| Gazetteer.Resolve | ailotime.py:245-250 | a Timezone result names the place after the alias table, as name and as identifier |
| Gazetteer.ResolveNotFound | ailotime.py:182-253 | not found exactly when no city, no country and no timezone answers to the place |
| Gazetteer.ResolveTimezoneAfterMisses | ailotime.py:222-250 | a Timezone only after both tables miss, and only for a listed identifier |
| Gazetteer.TimezoneStage | ailotime.py:245-253 | once both tables miss, a place whose alias is a listed identifier resolves to that timezone, and any other place is not found |
| Gazetteer.ResolveCityFromRow | ailotime.py:214-243 | a City is always built from some row of the city table |
| Gazetteer.CityStageFirstMatch | ailotime.py:200-220 | the first matching city row is the result, whatever the other tables hold |
| Gazetteer.CityStageMostPopulous | ailotime.py:184-207 | with rows in decreasing population, the most populous homonym is chosen |
| Gazetteer.CountryStageLastMatch | ailotime.py:222-243 | after a city miss, the last matching country's capital is the result |
| Gazetteer.CodeIgnoredAfterCityStage | ailotime.py:224-227 | once no city answers to the place, the country code does not matter |
| Gazetteer.CodeCaseIgnored | ailotime.py:190 | the country code's case does not matter |
| Gazetteer.AliasMatchesCanonical | ailotime.py:196-198 | an abbreviation resolves as its identifier when no city or country answers to either spelling |
| Gazetteer.CorrectedResultFromPlace | ailotime.py:229-243 | read as intended, every location found is a matching city, the capital of a matching country, or the named timezone |
| Gazetteer.AsWrittenArgentinaIsParis | ailotime.py:229-243 | as written, "Argentina" resolves to Paris when Buenos Aires has no row |
| Gazetteer.CorrectedArgentinaIsReported | ailotime.py:229-243 | read as intended, the same lookup reports the missing capital |
| Solar.IconSeparatesBands | ailotime.py:397-428 | icons tell all six bands apart |
| Solar.ColorSeparatesBands | ailotime.py:397-428 | colours tell the bands apart except the two nautical bands, which share one |
| Solar.MidnightRef | ailotime.py:410-413 | solar midnight is moved exactly one day later when the clock is past 12:00:00 |
| Solar.ColorTime | ailotime.py:392-428 | day above 2 degrees, civil above -6, nautical above -12, night otherwise; the sunset side is exactly the twilight before the reference midnight |
| Solar.ColorTimeMonotone | ailotime.py:415-428 | a higher sun never gives a lower band |
| Solar.ColorTimeThresholds | ailotime.py:415-428 | exactly 2 is civil, exactly -6 nautical, exactly -12 night; nautical colour "2131a6" |
| Solar.AfternoonTwilightIsSunset | ailotime.py:410-424 | in the afternoon, a twilight before the next solar midnight is on the sunset side |
| Solar.TimedeltaSeconds | ailotime.py:177 | `timedelta.seconds` is below one day |
| Solar.StrfdeltaReadsBack | ailotime.py:172-179 | the text is "H h M min" with H below 24 and M below 60 and `3600 H + 60 M` in the last minute before the seconds part |
| Solar.StrfdeltaDropsDays | ailotime.py:176-177 | whole days of the duration do not show |
| Solar.FullDayRendersAsZero | ailotime.py:177-179 | a 24-hour duration renders as "0 h 0 min" |
| Solar.DayAndNightSeconds | ailotime.py:551-554 | day and night seconds add up to 86400, or 86399 for a fractional day length |
| Solar.TwilightKeysNameTheirDepression | ailotime.py:482-546 | dawn keys start with `r`, dusk keys with `s`, and the second letter names the depression used |
| Solar.AddMetrics | ailotime.py:482-546 | a time key is added exactly when requested, holding astral's answer or `False` |
| Solar.WithDayNight | ailotime.py:548-561 | day and night lengths are added exactly when the test holds; nothing else changes |
| Solar.SunReport | ailotime.py:474-563 | each time key is present exactly when requested and maps to its answer; day and night are present exactly when the test holds; no other key |
| Solar.FallbackLengths | ailotime.py:555-561 | without a daylight interval the day is "24 h 00 min" exactly when the sun is up, and the night the reverse |
| Solar.NightComplementsDay | ailotime.py:550-554 | the lengths are those of the daylight interval and of 24 h minus it, and their seconds add up to about a whole day; the interval is the difference of instants, which is what Python computes on bounds that pytz gives one tzinfo per UTC offset |
| Solar.AsWrittenAlwaysHasDayNight | ailotime.py:548 | as written, day and night lengths are in every report |
| Solar.SunriseOnlyReport | ailotime.py:548-554 | asked only for "r", the report still has day and night as written, and only "r" as intended |

## Left out

- `run.py`: the Discord client, event loop and embed rendering are network and user-interface code.
- `util/conversion.py`: a one-off data-preparation script. Only its results are kept, as assumptions: the column layouts of `CityRow` and `CountryRow`, and city rows in decreasing population order (a hypothesis of `Gazetteer.CityStageMostPopulous`).
- `init`: loading the CSV files is file I/O. The tables are given values of type `Gazetteer.Db`.
- `errorMessage`, `Output`, `command_credits`: constant message templates.
- `command_time`, `command_conv`, `command_sun`: these read the system clock and call `strftime` and `astimezone`. They are orchestration around the modelled functions.
- astral's solar elevation, dawn, dusk, sunrise, sunset, noon, midnight and daylight: floating-point astronomy in a library outside this model. They enter as the values of `Solar.Astral` and the `angle`/`solarMidnight` parameters of `Solar.ColorTime`. An `AstralError` is `None`.
- `strptime`: its internals are left abstract as `TimeExpr.Strptime`, which returns valid fields or nothing for each format. The fact that `%A` accepts only full weekday names is part of that abstraction.
- pytz `localize` and the DST rules are the function `TimeExpr.Localize`.
- `datetime.now(tz)` is the parameter `now`.
- Gazetteer.MakeCity: pytz's own name lookup is also case-insensitive and accepts a few identifiers outside `all_timezones`. The model checks a row's timezone by exact membership in `Db.zones`.
- Gazetteer.Resolve: when pytz rejects a row's timezone, the source raises a `NameError`, because its `except UnknownTimeZoneError` clause names a class that is never imported. The model keeps this as the distinct error `UnknownTimezone` rather than modelling the exception's identity.
- Text.Lower: `str.lower` and `str.upper` also map non-ASCII letters. The model maps ASCII letters only, so names compared case-insensitively are equal here only up to ASCII case.
- Phrases.ParseTimeInput: `\w` is the abstract predicate `WordPred`. Only its ASCII part is fixed (`WordClass`). Which non-ASCII characters count as word characters is left to the predicate.
- TimeExpr.ParseTime: dates past year 9999 are not modelled. In Python they raise `OverflowError` in the week class (`ailotime.py:287`) or `ValueError` in the day class (`ailotime.py:306`). `Calendar` counts years without an upper bound.
- TimeExpr.ParseTime: the week class fails on `None` (`TypeError` or `AttributeError`) when no weekday name is read. The model reports this as `UnknownWeekday`, one error for both.

## Findings

| source | as written | input that shows it | evidently intended | confidence | as-written member | corrected member |
|---|---|---|---|---|---|---|
| ailotime.py:299-306 | the day-of-month candidate moves to the next month when it is later than now (`dtObject_compare > now`) | now 2024-03-10 12:00 UTC, input "15, 14:00": the result is 15 April | move on only when the day and time have already passed, as the comment above the test says | not executed; high | TimeExpr.AsWrittenSkipsUpcomingDay | TimeExpr.CorrectedNeverPast |
| ailotime.py:229-243 | when no city row is the country's capital, `line` still holds the country's index and is used on the city table | cities [Paris], countries [Argentina, capital Buenos Aires]: "Argentina" resolves to Paris; with fewer city rows than the index, an `IndexError` | report the country as found with inconsistent data instead of returning an unrelated city | not executed; high | Gazetteer.AsWrittenArgentinaIsParis | Gazetteer.CorrectedResultFromPlace |
| ailotime.py:548 | `'day' or 'night' in types` is always true, so day and night lengths are computed for every request | types ("r",): the report holds "day" and "night" | `'day' in types or 'night' in types` | not executed; high (both callers always ask for "day", so the effect is not visible to them) | Solar.AsWrittenAlwaysHasDayNight | Solar.SunriseOnlyReport |
