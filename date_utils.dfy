/** The front end's date helpers (assets/js/utils/date.js): the "time ago"
    display text of an instant, the display text of a review's date, and the
    parsers that turn a review's date text back into an instant. */
module DateUtils {
  import opened Wrappers
  import opened Text
  import opened Pattern
  import opened FrenchDates

  /** A JavaScript month index, as `getMonth()` returns it. */
  type Month = m: nat | m < 12

  /** The local calendar fields of an instant: `getFullYear()`, `getMonth()`
      and `getDate()`. Years before year 0 are not modelled. */
  datatype CivilDate = CivilDate(year: nat, month: Month, day: nat)

  /** What JavaScript's `Date` does that the model keeps abstract: reading a
      date text (`new Date(text).getTime()`, None when it is NaN), the instant
      of a calendar-dependent `Instant`, and the local fields of an instant. */
  datatype Calendar = Calendar(
    read: string -> Option<int>,
    resolve: Instant -> int,
    civil: int -> CivilDate)

  /** The milliseconds of an instant; an exact instant needs no calendar. */
  function InstantMs(i: Instant, cal: Calendar): (ms: int)
    ensures i.Epoch? ==> ms == i.ms
  {
    if i.Epoch? then i.ms else cal.resolve(i)
  }

  /** The argument of `getTimeAgo` and `formatReviewDate`: a string, a `Date`
      (whose time may be NaN), a falsy value other than the empty string
      (`null`, `undefined`), or any other value. */
  datatype DateArg = TextArg(text: string) | DateObject(time: Option<int>) | NoValue | OtherArg

  /** The month abbreviations of the absolute display text, by month index. */
  const MonthAbbr: seq<string> :=
    ["janv.", "févr.", "mars", "avr.", "mai", "juin", "juil.", "août", "sept.", "oct.", "nov.", "déc."]

  /** "le D <abbr> YYYY", the display text of an instant four weeks old or more. */
  function AbsoluteText(c: CivilDate): string
  {
    "le " + NatToString(c.day) + " " + MonthAbbr[c.month] + " " + NatToString(c.year)
  }

  /** The unit word of a week count. */
  function WeekWord(w: nat): string
  {
    if w > 1 then "semaines" else "semaine"
  }

  /** The display text for an instant `elapsedMs` milliseconds before now whose
      local date is `at`: whole seconds are the floor of the milliseconds, and
      minutes, hours, days and weeks are floors of the previous unit. */
  function AgoText(elapsedMs: int, at: CivilDate): (r: Option<string>)
    ensures r.None? <==> elapsedMs < 0
  {
    var seconds := elapsedMs / 1000;
    if seconds < 0 then None
    else if seconds < 60 then Some("À l'instant")
    else
      var minutes := seconds / 60;
      if minutes < 60 then Some(NatToString(minutes) + " min")
      else
        var hours := minutes / 60;
        if hours < 24 then Some(NatToString(hours) + "h")
        else
          var days := hours / 24;
          if days == 1 then Some("Hier")
          else if days < 7 then Some(RelativeText(days, if days > 1 then "jours" else "jour"))
          else
            var weeks := days / 7;
            if weeks < 4 then Some(RelativeText(weeks, WeekWord(weeks)))
            else Some(AbsoluteText(at))
  }

  /** The time `getTimeAgo` reads from its argument: an empty string, a value
      that is neither a string nor a `Date`, and an invalid date give none. */
  function TimeOf(arg: DateArg, cal: Calendar): Option<int>
  {
    match arg
    case TextArg(t) => if t == [] then None else cal.read(t)
    case DateObject(time) => time
    case NoValue => None
    case OtherArg => None
  }

  /** `getTimeAgo` of date.js, at the instant `now`. */
  function GetTimeAgo(arg: DateArg, now: int, cal: Calendar): (r: Option<string>)
    ensures arg.OtherArg? || arg.NoValue? || arg == TextArg([]) ==> r.None?
    ensures r.None? <==> TimeOf(arg, cal).None? || now < TimeOf(arg, cal).value
  {
    match TimeOf(arg, cal)
    case None => None
    case Some(ms) => AgoText(now - ms, cal.civil(ms))
  }

  /** The seconds, minutes, hours and days `AgoText` computes are floors of the
      elapsed milliseconds. */
  lemma Floors(e: int)
    requires e >= 0
    ensures e / 1000 / 60 == e / 60000
    ensures e / 1000 / 60 / 60 == e / 3600000
    ensures e / 1000 / 60 / 60 / 24 == e / DayMs
  {
    var seconds, minutes, hours := e / 1000, e / 1000 / 60, e / 1000 / 60 / 60;
    assert 1000 * seconds <= e < 1000 * seconds + 1000;
    assert 60000 * minutes <= e < 60000 * minutes + 60000;
    assert 3600000 * hours <= e < 3600000 * hours + 3600000;
  }

  /** Whole weeks are a floor of the elapsed milliseconds as well. */
  lemma WeekFloor(e: int)
    requires e >= 0
    ensures e / DayMs / 7 == e / (7 * DayMs)
  {
    var days := e / DayMs;
    assert DayMs * days <= e < DayMs * days + DayMs;
  }

  /** The buckets of `AgoText`, by elapsed milliseconds. */
  lemma AgoShortBuckets(e: int, c: CivilDate)
    ensures 0 <= e < 60000 ==> AgoText(e, c) == Some("À l'instant")
    ensures 60000 <= e < 3600000 ==> AgoText(e, c) == Some(NatToString(e / 60000) + " min")
    ensures 3600000 <= e < DayMs ==> AgoText(e, c) == Some(NatToString(e / 3600000) + "h")
  {
    if e >= 0 {
      Floors(e);
    }
  }

  lemma AgoDayBuckets(e: int, c: CivilDate)
    ensures DayMs <= e < 2 * DayMs ==> AgoText(e, c) == Some("Hier")
    ensures 2 * DayMs <= e < 7 * DayMs ==> AgoText(e, c) == Some(RelativeText(e / DayMs, "jours"))
  {
    if e >= DayMs {
      Floors(e);
    }
  }

  lemma AgoWeekBuckets(e: int, c: CivilDate)
    ensures 7 * DayMs <= e < 28 * DayMs ==>
              AgoText(e, c) == Some(RelativeText(e / (7 * DayMs), WeekWord(e / (7 * DayMs))))
    ensures 28 * DayMs <= e ==> AgoText(e, c) == Some(AbsoluteText(c))
  {
    if e >= 7 * DayMs {
      Floors(e);
      WeekFloor(e);
    }
  }

  /** The front end's relative recogniser (`parseRelativeDateText`): the
      cascade on the lower-cased, trimmed text, with the single-space phrases. */
  function ParseRelativeDateText(dateText: string, now: int): (r: Option<Instant>)
    ensures dateText == [] ==> r.None?
    ensures dateText != [] ==> r == ResolveRelative(Trim(Lower(dateText)), now, false)
  {
    if dateText == [] then None else ResolveRelative(Trim(Lower(dateText)), now, false)
  }

  /** The front end's absolute recogniser (`parseFrenchDateText`). Its code
      is the scraper's `parseFrenchDate` again, with the same ASCII `\w`; the
      model uses the corrected recogniser here too (see `AbsoluteUnreadAsWritten`
      for the one as written). Its result is local midnight of a day of one of
      the twelve months. */
  function ParseFrenchDateText(dateText: string): (r: Option<Instant>)
    ensures dateText == [] ==> r.None?
    ensures r.Some? ==> r.value.LocalMidnight? && r.value.month < 12
  {
    MonthIndexBounded();
    ParseFrenchDate(dateText)
  }

  /** A relative display text reads back unchanged by the front end's
      recogniser. */
  lemma RelativeTextReadsBack(n: nat, word: string, now: int)
    requires IsUnitWord(word)
    ensures ParseRelativeDateText(RelativeText(n, word), now)
              == ResolveRelative(RelativeText(n, word), now, false)
  {
    var s := RelativeText(n, word);
    RelativeTextChars(n, word);
    LowerOfLowerCase(s);
    TrimUnpadded(s);
  }

  /** Round trip of the day texts: reading back "il y a N jours" at the same
      instant gives an instant no earlier than the original and less than a
      day after it. */
  lemma DaysReadBack(t: int, now: int, c: CivilDate)
    requires 2 * DayMs <= now - t < 7 * DayMs
    ensures var r := AgoText(now - t, c);
            && r.Some? && ParseRelativeDateText(r.value, now).Some?
            && var i := ParseRelativeDateText(r.value, now).value;
            && i.Epoch? && t <= i.ms < t + DayMs
  {
    var d := (now - t) / DayMs;
    AgoDayBuckets(now - t, c);
    RelativeTextReadsBack(d, "jours", now);
    RelativeResolves(d, "jours", now, false);
  }

  /** Round trip of the week texts: reading back "il y a N semaine(s)" gives an
      instant no earlier than the original and less than a week after it. */
  lemma WeeksReadBack(t: int, now: int, c: CivilDate) returns (w: nat)
    requires 7 * DayMs <= now - t < 28 * DayMs
    ensures AgoText(now - t, c) == Some(RelativeText(w, WeekWord(w)))
    ensures ParseRelativeDateText(RelativeText(w, WeekWord(w)), now) == Some(Epoch(now - 7 * w * DayMs))
    ensures t <= now - 7 * w * DayMs < t + 7 * DayMs
  {
    w := WeekAgo(now - t, c);
    WeekTextReadsBack(w, WeekWord(w), now);
  }

  lemma WeekAgo(e: int, c: CivilDate) returns (w: nat)
    requires 7 * DayMs <= e < 28 * DayMs
    ensures AgoText(e, c) == Some(RelativeText(w, WeekWord(w)))
    ensures e - 7 * DayMs < 7 * w * DayMs <= e
  {
    w := e / (7 * DayMs);
    AgoWeekBuckets(e, c);
    assert 7 * DayMs * w <= e < 7 * DayMs * w + 7 * DayMs by {
      FloorBounds(e, 7 * DayMs);
    }
  }

  /** Euclidean division by a positive divisor rounds down. */
  lemma FloorBounds(e: int, d: int)
    requires d > 0
    ensures d * (e / d) <= e < d * (e / d) + d
  {
  }

  lemma WeekTextReadsBack(w: nat, word: string, now: int)
    requires word in ["semaine", "semaines"]
    ensures ParseRelativeDateText(RelativeText(w, word), now) == Some(Epoch(now - 7 * w * DayMs))
  {
    RelativeTextReadsBack(w, word, now);
    RelativeResolves(w, word, now, false);
  }

  /** Round trip of "Hier": it reads back as one day before now, no earlier
      than the original instant and less than a day after it. */
  lemma YesterdayReadsBack(t: int, now: int, c: CivilDate)
    requires DayMs <= now - t < 2 * DayMs
    ensures AgoText(now - t, c) == Some("Hier")
    ensures ParseRelativeDateText("Hier", now) == Some(Epoch(now - DayMs))
    ensures t <= now - DayMs < t + DayMs
  {
    AgoDayBuckets(now - t, c);
    CapitalisedYesterdayText(now);
  }

  /** The front end's recogniser reads "Hier" whatever its capitalisation. */
  lemma CapitalisedYesterdayText(now: int)
    ensures ParseRelativeDateText("Hier", now) == Some(Epoch(now - DayMs))
  {
    var yesterday := "hier";
    assert Lower("Hier") == yesterday;
    TrimUnpadded(yesterday);
    YesterdayResolves(now, false);
  }

  /** Every abbreviation is a word of the lexicon for its own month, with or
      without a final dot. */
  lemma MonthAbbrInLexicon(m: Month) returns (word: string, dot: bool)
    ensures MonthAbbr[m] == word + (if dot then "." else "")
    ensures word in MonthIndex && MonthIndex[word] == m
  {
    word, dot := MonthAbbr[m], false;
    if m == 0 {
      word, dot := "janv", true;
    } else if m == 1 {
      word, dot := "févr", true;
    } else if m == 3 {
      word, dot := "avr", true;
    } else if m == 6 {
      word, dot := "juil", true;
    } else if m == 8 {
      word, dot := "sept", true;
    } else if m == 9 {
      word, dot := "oct", true;
    } else if m == 10 {
      word, dot := "nov", true;
    } else if m == 11 {
      word, dot := "déc", true;
    }
  }

  /** Round trip of the absolute texts: the corrected recogniser reads "le D
      <abbr> YYYY" back as local midnight of the same calendar day, for every
      month (four-digit years, days below 100). */
  lemma AbsoluteReadsBack(e: int, c: CivilDate)
    requires 28 * DayMs <= e && c.day < 100 && 1000 <= c.year < 10000
    ensures AgoText(e, c).Some?
    ensures ParseFrenchDateText(AgoText(e, c).value) == Some(LocalMidnight(c.year, c.month, c.day))
  {
    AgoWeekBuckets(e, c);
    var word, dot := MonthAbbrInLexicon(c.month);
    assert AbsoluteText(c) == FrenchDateText(c.day, word, dot, c.year);
    FrenchDateRoundTrip(c.day, word, dot, c.year);
  }

  /** As written, `parseFrenchDateText` reads the month with JavaScript's
      ASCII `\w`: the absolute text `getTimeAgo` renders for a February,
      August or December date is not read back as that date. */
  lemma AbsoluteUnreadAsWritten(e: int, c: CivilDate)
    requires 28 * DayMs <= e && c.month in {1, 7, 11}
    ensures AgoText(e, c).Some?
    ensures ParseFrenchDateAsWritten(AgoText(e, c).value) != Some(LocalMidnight(c.year, c.month, c.day))
  {
    AgoWeekBuckets(e, c);
    AsWrittenMissesAccentedMonths(AgoText(e, c).value);
  }

  // ---------------------------------------------------------------------------
  // parseDateFromText and formatReviewDate

  /** What `parseDateFromText` returns: the input itself when it starts with a
      "YYYY-MM-DD" date, or the ISO text of an instant a recogniser resolved
      (kept here as that instant). */
  datatype DateValue = IsoText(text: string) | Resolved(instant: Instant)

  /** `parseDateFromText`: an ISO-prefixed text verbatim (checked on the text
      before trimming), else the relative recogniser, else the absolute one. */
  function ParseDateFromText(arg: DateArg, now: int): (r: Option<DateValue>)
    ensures !arg.TextArg? || arg.text == [] ==> r.None?
    ensures arg.TextArg? && IsIsoDatePrefix(arg.text) ==> r == Some(IsoText(arg.text))
    ensures r.Some? && r.value.IsoText? ==> arg.TextArg? && IsIsoDatePrefix(arg.text)
    ensures arg.TextArg? && arg.text != [] && !IsIsoDatePrefix(arg.text) && ParseRelativeDateText(arg.text, now).Some? ==>
              r == Some(Resolved(ParseRelativeDateText(arg.text, now).value))
    ensures (arg.TextArg? && arg.text != [] && !IsIsoDatePrefix(arg.text)
             && ParseRelativeDateText(arg.text, now).None? && ParseFrenchDateText(arg.text).Some?) ==>
              r == Some(Resolved(ParseFrenchDateText(arg.text).value))
    ensures r.Some? && r.value.Resolved? ==>
              && arg.TextArg? && !IsIsoDatePrefix(arg.text)
              && (|| ParseRelativeDateText(arg.text, now) == Some(r.value.instant)
                  || (ParseRelativeDateText(arg.text, now).None? && ParseFrenchDateText(arg.text) == Some(r.value.instant)))
    ensures r.None? <==>
              || !arg.TextArg? || arg.text == []
              || (&& !IsIsoDatePrefix(arg.text)
                  && ParseRelativeDateText(arg.text, now).None? && ParseFrenchDateText(arg.text).None?)
  {
    if !arg.TextArg? || arg.text == [] then None
    else if IsIsoDatePrefix(arg.text) then Some(IsoText(arg.text))
    else
      match ParseRelativeDateText(arg.text, now)
      case Some(i) => Some(Resolved(i))
      case None =>
        match ParseFrenchDateText(arg.text)
        case Some(i) => Some(Resolved(i))
        case None => None
  }

  /** The argument `formatReviewDate` hands to `getTimeAgo` for a parsed
      value: the ISO text itself, or the ISO text of a resolved instant, which
      `new Date` reads back as that instant. */
  function ValueArg(v: DateValue, cal: Calendar): (a: DateArg)
    ensures v.Resolved? ==> TimeOf(a, cal) == Some(InstantMs(v.instant, cal))
    ensures v.IsoText? && v.text != [] ==> TimeOf(a, cal) == cal.read(v.text)
  {
    match v
    case IsoText(t) => TextArg(t)
    case Resolved(i) => DateObject(Some(InstantMs(i, cal)))
  }

  /** `^il y a\s+\d+\s+`, the head of the relative display shape. */
  const RelativeShapeHead: seq<Token> := [Lit("il y a"), Spaces(true), Digits(1, 0), Spaces(true)]

  /** `/^il y a\s+\d+\s+(jour|jours|semaine|semaines|mois|an|ans)$/i`. */
  predicate IsRelativeShape(t: string)
  {
    match MatchTokens(t, 0, RelativeShapeHead, true)
    case Some((e, _)) => IsUnitWord(Lower(t[e..]))
    case None => false
  }

  /** `/^le\s+\d{1,2}\s+\w+\.?\s+\d{4}$/i`, with JavaScript's ASCII `\w`. */
  predicate IsFrenchDateShape(t: string)
  {
    match MatchTokens(t, 0, FrenchDatePattern(AsciiWord).tokens, true)
    case Some((e, _)) => e == |t|
    case None => false
  }

  /** `/^(aujourd'hui|hier|auj\.)$/i`. */
  predicate IsKeywordShape(t: string)
  {
    Lower(t) in ["aujourd'hui", "hier", "auj."]
  }

  /** The texts `formatReviewDate` shows as they are, once trimmed. */
  predicate IsDisplayShape(t: string)
  {
    IsRelativeShape(t) || IsFrenchDateShape(t) || IsKeywordShape(t)
  }

  /** No display shape is empty. */
  lemma DisplayShapeNonEmpty(t: string)
    requires IsDisplayShape(t)
    ensures t != []
  {
    EmptyIsNoShape();
  }

  lemma EmptyIsNoShape()
    ensures !IsDisplayShape([])
  {
    var t: string := [];
    assert !LitAt(t, 0, "il y a", true) && !LitAt(t, 0, "le", true);
  }

  /** `formatReviewDate`: '' for a missing or empty date; the trimmed text when
      it already has a display shape; otherwise the "time ago" text of the
      parsed date, then the "time ago" text of the argument itself, and last
      the argument unchanged. */
  function FormatReviewDate(arg: DateArg, now: int, cal: Calendar): (r: DateArg)
    ensures arg.NoValue? || arg == TextArg([]) ==> r == TextArg([])
    ensures arg.TextArg? && IsDisplayShape(Trim(arg.text)) ==> r == TextArg(Trim(arg.text))
    ensures r.TextArg? || r == arg
    ensures (&& !arg.NoValue? && arg != TextArg([])
             && !(arg.TextArg? && IsDisplayShape(Trim(arg.text)))
             && ViaParse(arg, now, cal).None? && GetTimeAgo(arg, now, cal).None?) ==> r == arg
    ensures (&& !arg.NoValue? && arg != TextArg([])
             && !(arg.TextArg? && IsDisplayShape(Trim(arg.text)))
             && ViaParse(arg, now, cal).Some?) ==> r == TextArg(ViaParse(arg, now, cal).value)
    ensures (&& !arg.NoValue? && arg != TextArg([])
             && !(arg.TextArg? && IsDisplayShape(Trim(arg.text)))
             && ViaParse(arg, now, cal).None? && GetTimeAgo(arg, now, cal).Some?) ==>
              r == TextArg(GetTimeAgo(arg, now, cal).value)
  {
    if arg.NoValue? || arg == TextArg([]) then TextArg([])
    else if arg.TextArg? && IsDisplayShape(Trim(arg.text)) then TextArg(Trim(arg.text))
    else
      match ViaParse(arg, now, cal)
      case Some(text) => TextArg(text)
      case None =>
        match GetTimeAgo(arg, now, cal)
        case Some(text) => TextArg(text)
        case None => arg
  }

  /** The "time ago" text of what `parseDateFromText` makes of the argument. */
  function ViaParse(arg: DateArg, now: int, cal: Calendar): (r: Option<string>)
    ensures r.Some? ==> ParseDateFromText(arg, now).Some?
    ensures ParseDateFromText(arg, now).Some? ==>
              r == GetTimeAgo(ValueArg(ParseDateFromText(arg, now).value, cal), now, cal)
  {
    match ParseDateFromText(arg, now)
    case Some(v) => GetTimeAgo(ValueArg(v, cal), now, cal)
    case None => None
  }

  /** A text of a display shape is shown trimmed, and showing it again changes
      nothing: `formatReviewDate` is idempotent on the display shapes. */
  lemma FormatShapeIdempotent(text: string, now: int, cal: Calendar)
    requires IsDisplayShape(Trim(text))
    ensures FormatReviewDate(TextArg(text), now, cal) == TextArg(Trim(text))
    ensures FormatReviewDate(FormatReviewDate(TextArg(text), now, cal), now, cal)
              == FormatReviewDate(TextArg(text), now, cal)
  {
    DisplayShapeNonEmpty(Trim(text));
    TrimIdempotent(text);
  }

  /** The relative display texts have the relative display shape. */
  lemma RelativeTextShape(n: nat, word: string)
    requires IsUnitWord(word)
    ensures IsRelativeShape(RelativeText(n, word))
  {
    RelativeTextLayout(n, word);
    UnitWordLetters(word);
    LaidOutShape(RelativeText(n, word), NatToString(n), word);
  }

  lemma LaidOutShape(s: string, D: string, word: string)
    requires IsUnitWord(word) && D != [] && AllDigits(D) && |s| == 8 + |D| + |word|
    requires s[..7] == "il y a " && s[7..7 + |D|] == D && s[7 + |D|] == ' ' && s[8 + |D|..] == word
    requires word != [] && forall k :: 0 <= k < |word| ==> 'a' <= word[k] <= 'z' && word[k] != 'l'
    ensures IsRelativeShape(s)
  {
    var e := 8 + |D|;
    assert s[e] == word[0];
    LaidOutHead(s, D);
    assert Lower(s[e..]) == word by {
      AsciiLowerIsLowerCase(word);
      LowerOfLowerCase(word);
    }
  }

  lemma AsciiLowerIsLowerCase(w: string)
    requires forall k :: 0 <= k < |w| ==> 'a' <= w[k] <= 'z' && w[k] != 'l'
    ensures IsLowerCase(w)
  {
  }

  lemma LaidOutHead(s: string, D: string)
    requires D != [] && AllDigits(D) && |s| > 8 + |D|
    requires s[..7] == "il y a " && s[7..7 + |D|] == D && s[7 + |D|] == ' ' && 'a' <= s[8 + |D|] <= 'z'
    ensures MatchTokens(s, 0, RelativeShapeHead, true) == Some((8 + |D|, [s[7..7 + |D|]]))
  {
    DigitsAt(s, D, 7);
    RelativeRuns(s, |D|);
    IlYAWithoutSpace(s);
    RelativeShapeHeadMatches(s, |D|);
  }

  lemma IlYAWithoutSpace(s: string)
    requires |s| >= 7 && s[..7] == "il y a "
    ensures s[..6] == "il y a"
  {
    assert s[..6] == s[..7][..6];
  }

  lemma RelativeShapeHeadMatches(s: string, d: nat)
    requires |s| > 8 + d && d >= 1 && s[..6] == "il y a"
    requires Run(s, 6, Space) == 1 && Run(s, 7, Digit) == d && Run(s, 7 + d, Space) == 1
    ensures MatchTokens(s, 0, RelativeShapeHead, true) == Some((8 + d, [s[7..7 + d]]))
  {
    var ts := RelativeShapeHead;
    assert ts[3..][1..] == [];
    MatchTokensCons(s, 7 + d, ts[3..], true, 1, 8 + d, []);
    assert [s[7..7 + d]] + [] == [s[7..7 + d]];
    MatchTokensCons(s, 7, ts[2..], true, d, 8 + d, []);
    MatchTokensCons(s, 6, ts[1..], true, 1, 8 + d, [s[7..7 + d]]);
    LitAtStart(s, "il y a", true);
    MatchTokensCons(s, 0, ts, true, 6, 8 + d, [s[7..7 + d]]);
  }

  /** What `getTimeAgo` shows for dates from one day to four weeks old is
      shown unchanged by `formatReviewDate`. */
  lemma FormatKeepsAgoText(e: int, c: CivilDate, now: int, cal: Calendar)
    requires DayMs <= e < 28 * DayMs
    ensures AgoText(e, c).Some?
    ensures FormatReviewDate(TextArg(AgoText(e, c).value), now, cal) == TextArg(AgoText(e, c).value)
  {
    if e < 2 * DayMs {
      AgoDayBuckets(e, c);
      FormatKeepsYesterday(now, cal);
    } else {
      var n, word := AgoRelative(e, c);
      FormatKeepsRelative(n, word, now, cal);
    }
  }

  lemma FormatKeepsYesterday(now: int, cal: Calendar)
    ensures FormatReviewDate(TextArg("Hier"), now, cal) == TextArg("Hier")
  {
    var text := "Hier";
    TrimUnpadded(text);
    LowerYesterday();
    assert IsDisplayShape(Trim(text));
  }

  lemma LowerYesterday()
    ensures IsKeywordShape("Hier")
  {
    var lowered := Lower("Hier");
    assert lowered[0] == 'h' && lowered[1] == 'i' && lowered[2] == 'e' && lowered[3] == 'r';
    assert lowered == "hier";
  }

  lemma FormatKeepsRelative(n: nat, word: string, now: int, cal: Calendar)
    requires IsUnitWord(word)
    ensures FormatReviewDate(TextArg(RelativeText(n, word)), now, cal) == TextArg(RelativeText(n, word))
  {
    RelativeTextShape(n, word);
    RelativeTextChars(n, word);
    TrimUnpadded(RelativeText(n, word));
  }

  /** From two days to four weeks, `getTimeAgo` shows a relative text. */
  lemma AgoRelative(e: int, c: CivilDate) returns (n: nat, word: string)
    requires 2 * DayMs <= e < 28 * DayMs
    ensures IsUnitWord(word) && AgoText(e, c) == Some(RelativeText(n, word))
  {
    if e < 7 * DayMs {
      AgoDayBuckets(e, c);
      n, word := e / DayMs, "jours";
    } else {
      n := WeekAgo(e, c);
      word := WeekWord(n);
    }
  }

  /** `parseDateFromText` reads a relative display text back as the instant
      the relative recogniser gives it. */
  lemma ParseDateReadsRelative(n: nat, word: string, now: int)
    requires IsUnitWord(word)
    ensures var r := ParseDateFromText(TextArg(RelativeText(n, word)), now);
            && (word in ["jour", "jours"] ==> r == Some(Resolved(Epoch(now - n * DayMs))))
            && (word in ["semaine", "semaines"] ==> r == Some(Resolved(Epoch(now - 7 * n * DayMs))))
            && (word == "mois" ==> r == Some(Resolved(MonthsBefore(now, n))))
            && (word in ["an", "ans"] ==> r == Some(Resolved(YearsBefore(now, n))))
  {
    var s := RelativeText(n, word);
    RelativeResolves(n, word, now, false);
    var i := ResolveRelative(s, now, false).value;
    ParseDateReadsResolved(n, word, now, i);
  }

  lemma ParseDateReadsResolved(n: nat, word: string, now: int, i: Instant)
    requires IsUnitWord(word) && ResolveRelative(RelativeText(n, word), now, false) == Some(i)
    ensures ParseDateFromText(TextArg(RelativeText(n, word)), now) == Some(Resolved(i))
  {
    var s := RelativeText(n, word);
    RelativeTextLayout(n, word);
    assert !IsDigit(s[0]);
    RelativeTextReadsBack(n, word, now);
  }

}
