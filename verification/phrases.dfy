/** The three input grammars of the bot (`parse_input_time`, `parse_input_sun`,
    `parse_input_conv`) and the country-code peeling they share
    (`separateCountryCodes`). Each regular expression is written out as a decomposition
    of the text over character classes; where the regex engine has a choice, the model
    takes the one the engine's greedy backtracking arrives at (the largest split
    position that leads to a match). */
module Phrases {
  import opened Wrappers
  import opened Text

  /** The regex class `\w` on a `str` pattern (letters, digits and `_` of any script),
      left abstract. */
  type WordPred = char -> bool

  /** On ASCII characters `\w` is exactly `[A-Za-z0-9_]`. */
  ghost predicate WordClass(w: WordPred) {
    forall c: char {:trigger w(c)} :: c < '\U{80}' ==> (w(c) <==> IsAsciiLetter(c) || IsAsciiDigit(c) || c == '_')
  }

  // ---------------------------------------------------------------------------
  // Character classes of the patterns
  // ---------------------------------------------------------------------------

  /** `[A-Za-z0-9'/\-\s]`: the name in front of a country code. */
  predicate IsCodedNameChar(c: char) {
    IsAsciiLetter(c) || IsAsciiDigit(c) || c == '\'' || c == '/' || c == '-' || IsSpace(c)
  }

  /** `[\w\s'’`-]`: a place-name character of the input patterns. */
  predicate IsPlaceChar(w: WordPred, c: char) {
    w(c) || IsSpace(c) || c == '\'' || c == '\U{2019}' || c == '`' || c == '-'
  }

  /** `[A-Za-z0-9,:/\-\s]`: a time-expression character. */
  predicate IsTimeChar(c: char) {
    IsAsciiLetter(c) || IsAsciiDigit(c) || c == ',' || c == ':' || c == '/' || c == '-' || IsSpace(c)
  }

  predicate AllCodedName(s: string) {
    forall i :: 0 <= i < |s| ==> IsCodedNameChar(s[i])
  }

  predicate AllPlace(w: WordPred, s: string) {
    forall i :: 0 <= i < |s| ==> IsPlaceChar(w, s[i])
  }

  predicate AllTime(s: string) {
    forall i :: 0 <= i < |s| ==> IsTimeChar(s[i])
  }

  /** Under `WordClass`, parentheses and commas are not place characters. */
  lemma PunctuationIsNotPlace(w: WordPred)
    requires WordClass(w)
    ensures !IsPlaceChar(w, '(') && !IsPlaceChar(w, ')') && !IsPlaceChar(w, ',')
  {
    assert !w('(') && !w(')') && !w(',');
  }

  // ---------------------------------------------------------------------------
  // separateCountryCodes
  // ---------------------------------------------------------------------------

  /** A place phrase: the name and, when one was typed, the two-letter country code
      exactly as typed. */
  datatype Phrase = Phrase(place: string, code: Option<string>)

  function FirstIndexOf(s: string, c: char): (k: nat)
    ensures k <= |s|
    ensures c !in s[..k]
    ensures k < |s| ==> s[k] == c
    decreases |s|
  {
    if |s| == 0 then 0
    else if s[0] == c then 0
    else
      var k := FirstIndexOf(s[1..], c);
      assert s[..k + 1] == [s[0]] + s[1..][..k];
      k + 1
  }

  /** What may follow the two letters of a code: `\)?$`, where `$` also matches in
      front of a final newline. */
  predicate IsCodeTail(t: string) {
    t == "" || t == ")" || t == "\n" || t == ")\n"
  }

  predicate IsCode(code: string) {
    |code| == 2 && IsAsciiLetter(code[0]) && IsAsciiLetter(code[1])
  }

  /** `s` reads as `name`, `(`, a two-letter `code` and a code tail `t`, as the pattern
      `^([A-Za-z0-9'/\-\s]+)\s?\(([A-Za-z]{2})\)?$` requires. */
  predicate CodedPlaceParts(s: string, name: string, code: string, t: string) {
    && s == name + "(" + code + t
    && |name| >= 1 && AllCodedName(name)
    && IsCode(code)
    && IsCodeTail(t)
  }

  /** `separateCountryCodes(city)`: when the text is a name followed by a parenthesised
      two-letter code, the stripped name and the code as typed; otherwise nothing. */
  function SeparateCountryCode(s: string): (r: Option<Phrase>)
    ensures r.Some? ==>
      && r.value.code.Some?
      && exists name, t :: CodedPlaceParts(s, name, r.value.code.value, t) && r.value.place == Strip(name)
  {
    var k := FirstIndexOf(s, '(');
    if 1 <= k && k + 3 <= |s| && AllCodedName(s[..k]) && IsCode(s[k + 1..k + 3]) && IsCodeTail(s[k + 3..]) then
      assert CodedPlaceParts(s, s[..k], s[k + 1..k + 3], s[k + 3..]) by {
        assert s == s[..k] + "(" + s[k + 1..k + 3] + s[k + 3..];
      }
      Some(Phrase(Strip(s[..k]), Some(s[k + 1..k + 3])))
    else
      None
  }

  /** The other direction: every way of reading `s` as a coded place is found, and the
      name comes back stripped with the code untouched (not upper-cased). */
  lemma SeparateCountryCodeComplete(s: string, name: string, code: string, t: string)
    requires CodedPlaceParts(s, name, code, t)
    ensures SeparateCountryCode(s) == Some(Phrase(Strip(name), Some(code)))
  {
    var k := FirstIndexOf(s, '(');
    assert s[..|name|] == name;
    assert s[|name|] == '(';
    assert '(' !in name by {
      forall i | 0 <= i < |name| ensures name[i] != '(' {
        assert IsCodedNameChar(name[i]);
      }
    }
    assert k == |name|;
    assert s[k + 1..k + 3] == code;
    assert s[k + 3..] == t;
  }

  /** Without a `(` the text is never split. */
  lemma NoParenNoCode(s: string)
    requires '(' !in s
    ensures SeparateCountryCode(s) == None
  {
    assert FirstIndexOf(s, '(') == |s|;
  }

  /** The caller's fallback `[place, None]` when `separateCountryCodes` returns `False`. */
  function Peel(s: string): Phrase {
    SeparateCountryCode(s).GetOr(Phrase(s, None))
  }

  // ---------------------------------------------------------------------------
  // The place body shared by the three input patterns
  // ---------------------------------------------------------------------------

  /** Two ASCII letters in parentheses at position `k` of `s`: `\([A-Za-z]{2}\)`. */
  predicate IsCodeAt(s: string, k: nat) {
    k + 4 <= |s| && s[k] == '(' && IsCode(s[k + 1..k + 3]) && s[k + 3] == ')'
  }

  /** `[\w\s'’`-]+\s?(?:\([A-Za-z]{2}\))?`: place characters, optionally closed by a
      parenthesised code. The optional blank is itself a place character, so it adds
      nothing to the language. */
  predicate IsPlaceBody(w: WordPred, s: string) {
    || (|s| >= 1 && AllPlace(w, s))
    || (|s| >= 5 && AllPlace(w, s[..|s| - 4]) && IsCodeAt(s, |s| - 4))
  }

  /** The anchored match `^(body)$`: `$` matches at the end or in front of a final
      newline. */
  predicate MatchesPlace(w: WordPred, s: string) {
    IsPlaceBody(w, s) || (|s| >= 1 && s[|s| - 1] == '\n' && IsPlaceBody(w, s[..|s| - 1]))
  }

  /** The group captured by `^(body)$`: the whole text when it is a place body (the
      greedy run takes a final newline whenever it can), else the text without its
      final newline. */
  function PlaceGroup(w: WordPred, s: string): (g: Option<string>)
    ensures g.Some? <==> MatchesPlace(w, s)
    ensures g.Some? ==> IsPlaceBody(w, g.value) && (s == g.value || s == g.value + "\n")
    ensures IsPlaceBody(w, s) ==> g == Some(s)
  {
    if IsPlaceBody(w, s) then Some(s)
    else if |s| >= 1 && s[|s| - 1] == '\n' && IsPlaceBody(w, s[..|s| - 1]) then
      assert s == s[..|s| - 1] + "\n";
      Some(s[..|s| - 1])
    else None
  }

  datatype SyntaxError = MalformedInput

  // ---------------------------------------------------------------------------
  // parse_input_time
  // ---------------------------------------------------------------------------

  /** `parse_input_time`: the whole input is one place phrase; its code is peeled off
      when the name part is plain ASCII, otherwise the group is kept whole with no
      code. Anything else is malformed. */
  function ParseTimeInput(w: WordPred, s: string): (r: Result<Phrase, SyntaxError>)
    ensures r.Err? <==> !MatchesPlace(w, s)
    ensures r.Ok? ==> exists g :: (s == g || s == g + "\n") && IsPlaceBody(w, g) && r.value == Peel(g)
  {
    match PlaceGroup(w, s)
    case None => Err(MalformedInput)
    case Some(g) => Ok(Peel(g))
  }

  /** A bare place name is kept verbatim, surrounding blanks included, with no code. */
  lemma TimeInputBareName(w: WordPred, s: string)
    requires WordClass(w)
    requires |s| >= 1 && AllPlace(w, s)
    ensures ParseTimeInput(w, s) == Ok(Phrase(s, None))
  {
    PunctuationIsNotPlace(w);
    assert '(' !in s by {
      forall i | 0 <= i < |s| ensures s[i] != '(' { assert IsPlaceChar(w, s[i]); }
    }
    NoParenNoCode(s);
  }

  /** A name in the ASCII class followed by `(XX)` is split into the stripped name and
      the code as typed. */
  lemma TimeInputCodedName(w: WordPred, name: string, code: string)
    requires WordClass(w)
    requires |name| >= 1 && AllPlace(w, name) && AllCodedName(name) && IsCode(code)
    ensures ParseTimeInput(w, name + "(" + code + ")") == Ok(Phrase(Strip(name), Some(code)))
  {
    var s := name + "(" + code + ")";
    assert s[..|s| - 4] == name;
    assert s[|s| - 4 + 1..|s| - 4 + 3] == code;
    assert IsPlaceBody(w, s);
    SeparateCountryCodeComplete(s, name, code, ")");
  }

  /** A name with a character outside `[A-Za-z0-9'/\-\s]` (a non-ASCII letter, `’`,
      a backquote) is accepted by the input pattern but not split by
      `separateCountryCodes`: the code stays glued to the place, with no code. */
  lemma TimeInputForeignNameKeepsCode(w: WordPred, name: string, code: string)
    requires WordClass(w)
    requires |name| >= 1 && AllPlace(w, name) && !AllCodedName(name) && IsCode(code)
    ensures ParseTimeInput(w, name + "(" + code + ")") == Ok(Phrase(name + "(" + code + ")", None))
  {
    var s := name + "(" + code + ")";
    assert s[..|s| - 4] == name;
    assert s[|s| - 4 + 1..|s| - 4 + 3] == code;
    assert IsPlaceBody(w, s);
    PunctuationIsNotPlace(w);
    var k := FirstIndexOf(s, '(');
    assert '(' !in name by {
      forall i | 0 <= i < |name| ensures name[i] != '(' { assert IsPlaceChar(w, name[i]); }
    }
    assert s[..|name|] == name;
    assert s[|name|] == '(';
    assert k == |name|;
    assert s[..k] == name;
  }

  /** `Reykjavík (IS)` keeps `(IS)` in the place. */
  lemma ReykjavikIsNotSplit(w: WordPred)
    requires WordClass(w) && w('í')
    ensures ParseTimeInput(w, "Reykjavík (IS)") == Ok(Phrase("Reykjavík (IS)", None))
  {
    ReykjavikName(w);
    TimeInputForeignNameKeepsCode(w, "Reykjavík ", "IS");
    ReykjavikSpelling();
  }

  /** "Reykjavík " is all place characters, and its `í` is outside the ASCII name
      class of a coded place. */
  lemma ReykjavikName(w: WordPred)
    requires WordClass(w) && w('í')
    ensures AllPlace(w, "Reykjavík ")
    ensures !AllCodedName("Reykjavík ")
  {
    var name := "Reykjavík ";
    assert !IsCodedNameChar(name[7]);
    forall i | 0 <= i < |name| ensures IsPlaceChar(w, name[i]) {
      assert name[i] < '\U{80}' ==> (w(name[i]) <==> IsAsciiLetter(name[i]) || IsAsciiDigit(name[i]) || name[i] == '_');
    }
  }

  lemma ReykjavikSpelling()
    ensures "Reykjavík " + "(" + "IS" + ")" == "Reykjavík (IS)"
  {
  }

  // ---------------------------------------------------------------------------
  // Greedy search
  // ---------------------------------------------------------------------------

  /** The largest `j <= hi` with `p(j)`: the position a greedy `+` ends at after
      backtracking. */
  function LastWhere(p: nat -> bool, hi: nat): (r: Option<nat>)
    ensures r.Some? ==> r.value <= hi && p(r.value) && forall j: nat :: r.value < j <= hi ==> !p(j)
    ensures r.None? ==> forall j: nat :: j <= hi ==> !p(j)
    decreases hi
  {
    if p(hi) then Some(hi) else if hi == 0 then None else LastWhere(p, hi - 1)
  }

  /** ` at ` or ` in ` at position `i`: `(?:at|in)` with the blanks around it. */
  predicate AtSeparator(s: string, i: nat) {
    && i + 4 <= |s|
    && s[i] == ' ' && s[i + 3] == ' '
    && ((s[i + 1] == 'a' && s[i + 2] == 't') || (s[i + 1] == 'i' && s[i + 2] == 'n'))
  }

  // ---------------------------------------------------------------------------
  // parse_input_sun
  // ---------------------------------------------------------------------------

  /** Time text `s[..i]`, a separator, and a place: one way
      `^([A-Za-z0-9,:/\-\s]+) (?:at|in) (body)$` matches `s`. */
  predicate SunSplit(w: WordPred, s: string, i: nat) {
    1 <= i && AtSeparator(s, i) && AllTime(s[..i]) && MatchesPlace(w, s[i + 4..])
  }

  datatype SunQuery = AtTime(time: string, source: Phrase) | Now(source: Phrase)

  /** The largest end of the time text that leaves a match of the "time at place"
      pattern, if any end does. */
  function SunSplitOf(w: WordPred, s: string): (r: Option<nat>)
    ensures r.Some? <==> exists i: nat :: SunSplit(w, s, i)
    ensures r.Some? ==> SunSplit(w, s, r.value)
    ensures r.Some? ==> forall j: nat :: r.value < j ==> !SunSplit(w, s, j)
  {
    var p := (i: nat) => SunSplit(w, s, i);
    var r := LastWhere(p, |s|);
    NoSunSplitAfter(w, s, p, if r.Some? then r.value else -1);
    r
  }

  lemma NoSunSplitAfter(w: WordPred, s: string, p: nat -> bool, lo: int)
    requires forall j: nat :: p(j) == SunSplit(w, s, j)
    requires forall j: nat :: lo < j <= |s| ==> !p(j)
    ensures forall j: nat :: lo < j ==> !SunSplit(w, s, j)
  {
    forall j: nat | lo < j ensures !SunSplit(w, s, j) {
      if j <= |s| {
        assert !p(j);
      }
    }
  }

  /** `i` ends the longest time text that leaves a match. */
  ghost predicate GreedySun(w: WordPred, s: string, i: nat) {
    SunSplit(w, s, i) && forall j: nat :: i < j ==> !SunSplit(w, s, j)
  }

  /** `parse_input_sun`: the "time at place" pattern is tried first, and only when it
      has no match the bare place pattern; the time is the longest prefix that still
      leaves a match. */
  function ParseSunInput(w: WordPred, s: string): (r: Result<SunQuery, SyntaxError>)
    ensures r.Ok? && r.value.AtTime? <==> exists i: nat :: SunSplit(w, s, i)
    ensures r.Ok? && r.value.AtTime? ==>
      exists i: nat :: GreedySun(w, s, i) && r.value == AtTime(s[..i], Peel(PlaceGroup(w, s[i + 4..]).value))
    ensures r.Ok? && r.value.Now? ==> PlaceGroup(w, s).Some? && r.value == Now(Peel(PlaceGroup(w, s).value))
    ensures r.Err? <==> (forall i: nat :: !SunSplit(w, s, i)) && !MatchesPlace(w, s)
  {
    match SunSplitOf(w, s)
    case Some(i) =>
      assert GreedySun(w, s, i);
      Ok(AtTime(s[..i], Peel(PlaceGroup(w, s[i + 4..]).value)))
    case None =>
      match PlaceGroup(w, s)
      case Some(g) => Ok(Now(Peel(g)))
      case None => Err(MalformedInput)
  }

  /** A time, ` at ` or ` in `, and a place with no further separator in it: the time is
      taken verbatim and the place is peeled. */
  lemma SunTimeAtPlace(w: WordPred, t: string, sep: string, place: string)
    requires |t| >= 1 && AllTime(t)
    requires |sep| == 4 && AtSeparator(sep, 0)
    requires IsPlaceBody(w, place)
    requires forall j: nat :: |t| < j ==> !AtSeparator(t + sep + place, j)
    ensures ParseSunInput(w, t + sep + place) == Ok(AtTime(t, Peel(place)))
  {
    var s := t + sep + place;
    assert s[..|t|] == t;
    assert s[|t|..|t| + 4] == sep;
    assert AtSeparator(s, |t|);
    assert s[|t| + 4..] == place;
    assert SunSplit(w, s, |t|);
    var r := ParseSunInput(w, s);
    var i: nat :| SunSplit(w, s, i) && (forall j: nat :: i < j ==> !SunSplit(w, s, j))
                  && r.value == AtTime(s[..i], Peel(PlaceGroup(w, s[i + 4..]).value));
    assert i == |t|;
  }

  /** ASCII letters and blanks are place characters. */
  lemma AsciiWordsArePlace(w: WordPred, s: string)
    requires WordClass(w)
    requires forall i :: 0 <= i < |s| ==> IsAsciiLetter(s[i]) || s[i] == ' '
    ensures AllPlace(w, s)
  {
    forall i | 0 <= i < |s| ensures IsPlaceChar(w, s[i]) {
      if s[i] != ' ' {
        assert w(s[i]);
      }
    }
  }

  lemma NoSeparatorAfterNoon()
    ensures forall j: nat :: 4 < j ==> !AtSeparator("noon" + " at " + "Paris", j)
    ensures "noon" + " at " + "Paris" == "noon at Paris"
  {
    var s := "noon" + " at " + "Paris";
    assert s == "noon at Paris";
    forall j: nat | 4 < j ensures !AtSeparator(s, j) {
      if j + 4 <= |s| { assert s[j] != ' ' || s[j + 1] == 'P'; }
    }
  }

  /** The pieces of `noon at Paris`: a time, a separator, and a plain place with no
      further separator after the first. */
  lemma NoonAtParisParts(w: WordPred)
    requires WordClass(w)
    ensures AllTime("noon") && AtSeparator(" at ", 0) && IsPlaceBody(w, "Paris")
  {
    AsciiWordsArePlace(w, "Paris");
  }

  lemma PeelParis()
    ensures Peel("Paris") == Phrase("Paris", None)
  {
    assert "Paris" == ['P', 'a', 'r', 'i', 's'];
    NoParenNoCode("Paris");
  }

  /** The whole of `noon at Paris` is a place body too. */
  lemma NoonAtParisIsPlace(w: WordPred)
    requires WordClass(w)
    ensures MatchesPlace(w, "noon at Paris")
  {
    AsciiWordsArePlace(w, "noon at Paris");
  }

  /** "time at place" wins even though the bare place pattern matches the same text. */
  lemma SunPrefersTimeAtPlace(w: WordPred)
    requires WordClass(w)
    ensures MatchesPlace(w, "noon at Paris")
    ensures ParseSunInput(w, "noon at Paris") == Ok(AtTime("noon", Phrase("Paris", None)))
  {
    NoonAtParisIsPlace(w);
    NoonAtParisParts(w);
    PeelParis();
    NoSeparatorAfterNoon();
    SunTimeAtPlace(w, "noon", " at ", "Paris");
  }

  // ---------------------------------------------------------------------------
  // parse_input_conv
  // ---------------------------------------------------------------------------

  /** Length of ` to ` or ` into ` starting at `e`, or 0 when neither is there. */
  function ToSeparator(r: string, e: nat): (n: nat)
    ensures n == 0 || n == 4 || n == 6
    ensures n > 0 ==> e + n <= |r|
  {
    if e + 4 <= |r| && r[e] == ' ' && r[e + 1] == 't' && r[e + 2] == 'o' && r[e + 3] == ' ' then 4
    else if e + 6 <= |r| && r[e] == ' ' && r[e + 1] == 'i' && r[e + 2] == 'n' && r[e + 3] == 't'
            && r[e + 4] == 'o' && r[e + 5] == ' ' then 6
    else 0
  }

  /** Where the target-list recogniser stands: before the first name, inside a name,
      right after a parenthesised code, right after a comma. */
  datatype ListState = ExpectName | InName | AfterCode | AfterComma

  /** Recogniser of the third group with its `$`,
      `((?:[\w\s'’`-]+\s?(?:\([A-Za-z]{2}\))?,?\s?)+)$`. Every item starts with a run of
      place characters, a code may follow a run, a comma may follow a run or a code, and
      the optional blanks are place characters themselves, so they merge into the next
      run. A final newline is a place character too, which makes the `$` before it add
      nothing. Trying a place character before a code is the regex's own choice only
      when `(`, `)` and `,` are not place characters, as `WordClass` has it; every
      conversion result below is the pattern's meaning for such a `w`. */
  function TargetListFrom(w: WordPred, x: string, st: ListState): bool
    decreases |x|
  {
    if |x| == 0 then st != ExpectName
    else if IsPlaceChar(w, x[0]) then TargetListFrom(w, x[1..], InName)
    else if st == InName && IsCodeAt(x, 0) then TargetListFrom(w, x[4..], AfterCode)
    else if (st == InName || st == AfterCode) && x[0] == ',' then TargetListFrom(w, x[1..], AfterComma)
    else false
  }

  predicate IsTargetList(w: WordPred, x: string) {
    TargetListFrom(w, x, ExpectName)
  }

  /** In `r` (the text after ` at `/` in `), the source place ends at `e`, a ` to ` or
      ` into ` follows, and the rest is a target list. */
  predicate SourceEnd(w: WordPred, r: string, e: nat) {
    1 <= e <= |r| && IsPlaceBody(w, r[..e]) && ToSeparator(r, e) > 0 && IsTargetList(w, r[e + ToSeparator(r, e)..])
  }

  /** The source-place end the engine settles on: the largest one that leads to a match. */
  function SourceEndOf(w: WordPred, r: string): (e: Option<nat>)
    ensures e.Some? ==> SourceEnd(w, r, e.value) && forall j: nat :: e.value < j ==> !SourceEnd(w, r, j)
    ensures e.None? ==> forall j: nat :: !SourceEnd(w, r, j)
  {
    var p := (j: nat) => SourceEnd(w, r, j);
    var e := LastWhere(p, |r|);
    assert forall j: nat :: e.Some? && e.value < j ==> !SourceEnd(w, r, j) by {
      forall j: nat | e.Some? && e.value < j ensures !SourceEnd(w, r, j) {
        if j <= |r| { assert !p(j); }
      }
    }
    assert forall j: nat :: e.None? ==> !SourceEnd(w, r, j) by {
      forall j: nat | e.None? ensures !SourceEnd(w, r, j) {
        if j <= |r| { assert !p(j); }
      }
    }
    e
  }

  /** Time text `s[..i]` and a separator, followed by some source place and a target
      list: the first group of the conversion pattern can end at `i`. */
  predicate ConvSplit(w: WordPred, s: string, i: nat) {
    1 <= i && AtSeparator(s, i) && AllTime(s[..i]) && SourceEndOf(w, s[i + 4..]).Some?
  }

  /** The full decomposition `time (at|in) place (to|into) list` with the separators'
      positions. */
  predicate ConvParts(w: WordPred, s: string, i: nat, e: nat) {
    1 <= i && AtSeparator(s, i) && AllTime(s[..i]) && SourceEnd(w, s[i + 4..], e)
  }

  datatype Conversion = Conversion(time: string, source: Phrase, targets: seq<Phrase>)

  /** The end of the first group the engine settles on: the largest one that leads to a
      match (the greedy choice, with backtracking only as far as a match needs). */
  function ConvSplitOf(w: WordPred, s: string): (r: Option<nat>)
    ensures r.Some? <==> exists i: nat :: ConvSplit(w, s, i)
    ensures r.Some? ==> ConvSplit(w, s, r.value)
    ensures r.Some? ==> forall j: nat :: r.value < j ==> !ConvSplit(w, s, j)
  {
    var p := (i: nat) => ConvSplit(w, s, i);
    var r := LastWhere(p, |s|);
    NoConvSplitAfter(w, s, p, if r.Some? then r.value else -1);
    r
  }

  /** Past the end of the text no position can hold a separator, so checking the
      positions up to `|s|` settles every position. */
  lemma NoConvSplitAfter(w: WordPred, s: string, p: nat -> bool, lo: int)
    requires forall j: nat :: p(j) == ConvSplit(w, s, j)
    requires forall j: nat :: lo < j <= |s| ==> !p(j)
    ensures forall j: nat :: lo < j ==> !ConvSplit(w, s, j)
  {
    forall j: nat | lo < j ensures !ConvSplit(w, s, j) {
      if j <= |s| { assert !p(j); }
    }
  }

  /** A first group can end somewhere exactly when the whole text decomposes into time,
      source place and target list; the source end is then the one `SourceEndOf` picks. */
  lemma ConvSplitFindsParts(w: WordPred, s: string)
    ensures (exists i: nat :: ConvSplit(w, s, i)) <==> exists i: nat, e: nat :: ConvParts(w, s, i, e)
  {
    if exists i: nat :: ConvSplit(w, s, i) {
      var i: nat :| ConvSplit(w, s, i);
      ConvSplitParts(w, s, i);
    }
    if exists i: nat, e: nat :: ConvParts(w, s, i, e) {
      var i: nat, e: nat :| ConvParts(w, s, i, e);
      assert SourceEndOf(w, s[i + 4..]).Some?;
      assert ConvSplit(w, s, i);
    }
  }

  /** The conversion targets: one per comma-separated piece of the list, in order, each
      stripped and then peeled. */
  function TargetPhrases(list: string): (r: seq<Phrase>)
    ensures |r| == Count(list, ',') + 1
  {
    var pieces := Split(list, ',');
    seq(|pieces|, k requires 0 <= k < |pieces| => Peel(Strip(pieces[k])))
  }

  /** Places typed between commas, each with any blanks around it, come back as the
      targets, one each and in order: the blanks are stripped and each place is peeled. */
  lemma TargetPhrasesOfJoin(a: seq<string>, m: seq<string>, b: seq<string>)
    requires |m| >= 1 && |a| == |m| && |b| == |m|
    requires forall k :: 0 <= k < |m| ==> AllSpace(a[k]) && AllSpace(b[k])
    requires forall k :: 0 <= k < |m| ==> ',' !in m[k]
    requires forall k :: 0 <= k < |m| ==> m[k] == [] || (!IsSpace(m[k][0]) && !IsSpace(m[k][|m[k]| - 1]))
    ensures TargetPhrases(Join(seq(|m|, k requires 0 <= k < |m| => a[k] + m[k] + b[k]), ','))
         == seq(|m|, k requires 0 <= k < |m| => Peel(m[k]))
  {
    var ps := seq(|m|, k requires 0 <= k < |m| => a[k] + m[k] + b[k]);
    forall k | 0 <= k < |ps|
      ensures ',' !in ps[k]
    {
      assert !IsSpace(',');
      forall i | 0 <= i < |ps[k]|
        ensures ps[k][i] != ','
      {
        if i < |a[k]| {
          assert ps[k][i] == a[k][i];
        } else if i < |a[k]| + |m[k]| {
          assert ps[k][i] == m[k][i - |a[k]|];
        } else {
          assert ps[k][i] == b[k][i - |a[k]| - |m[k]|];
        }
      }
    }
    SplitJoin(ps, ',');
    var r := TargetPhrases(Join(ps, ','));
    forall k | 0 <= k < |m|
      ensures r[k] == Peel(m[k])
    {
      StripUnique(a[k], m[k], b[k]);
    }
  }

  /** A target typed as a name and a parenthesised two-letter code is the stripped name
      with the code as typed. */
  lemma PeelCodedPlace(name: string, code: string)
    requires |name| >= 1 && AllCodedName(name) && IsCode(code)
    ensures Peel(name + "(" + code + ")") == Phrase(Strip(name), Some(code))
  {
    SeparateCountryCodeComplete(name + "(" + code + ")", name, code, ")");
  }

  /** The conversion a decomposition at `i` (end of the time) and `e` (end of the source
      within the rest) denotes: the time verbatim, the source peeled but not stripped, the
      targets from the list group. */
  function ConversionAt(w: WordPred, s: string, i: nat, e: nat): Conversion
    requires ConvParts(w, s, i, e)
  {
    var rest := s[i + 4..];
    Conversion(s[..i], Peel(rest[..e]), TargetPhrases(rest[e + ToSeparator(rest, e)..]))
  }

  /** Where a first group can end, the source end `SourceEndOf` picks completes the
      decomposition. */
  lemma ConvSplitParts(w: WordPred, s: string, i: nat)
    requires ConvSplit(w, s, i)
    ensures SourceEndOf(w, s[i + 4..]).Some?
    ensures ConvParts(w, s, i, SourceEndOf(w, s[i + 4..]).value)
  {
  }

  /** `i` and `e` split `s` as the engine does: a full decomposition, with no later end
      of the time group that leads to a match, and the longest source place after it. */
  ghost predicate GreedyParts(w: WordPred, s: string, i: nat, e: nat) {
    && ConvParts(w, s, i, e)
    && (forall j: nat :: i < j ==> !ConvSplit(w, s, j))
    && SourceEndOf(w, s[i + 4..]) == Some(e)
  }

  /** `parse_input_conv`: accepted exactly when the text decomposes, and then read along
      the greedy decomposition. */
  function ParseConvInput(w: WordPred, s: string): (r: Result<Conversion, SyntaxError>)
    ensures r.Ok? <==> exists i: nat, e: nat :: ConvParts(w, s, i, e)
    ensures r.Ok? ==> exists i: nat, e: nat :: GreedyParts(w, s, i, e) && r.value == ConversionAt(w, s, i, e)
  {
    ConvSplitFindsParts(w, s);
    var split := ConvSplitOf(w, s);
    if split.None? then Err(MalformedInput)
    else
      var i := split.value;
      ConvSplitParts(w, s, i);
      var e := SourceEndOf(w, s[i + 4..]).value;
      assert GreedyParts(w, s, i, e);
      Ok(ConversionAt(w, s, i, e))
  }
}
