/** Recognisers for the review site's French date texts (senscritique-scraper.js
    and its front-end copy in assets/js/utils/date.js): relative phrases
    ("il y a 3 jours"), the keywords "aujourd'hui" and "hier", absolute dates
    ("le 4 nov. 2025") and numeric dates ("04/11/2025").

    Instants are integers of milliseconds since the epoch, as `Date.now()`
    gives them; "now" is always a parameter. */
module FrenchDates {
  import opened Wrappers
  import opened Text
  import opened Pattern

  /** One day in milliseconds. */
  const DayMs: int := 86400000

  /** What a recogniser resolves a date text to. Days and weeks are taken as
      whole multiples of `DayMs` milliseconds, where the source subtracts them
      with the local `setDate(getDate() - n)`, which differs across a
      daylight-saving change; subtracting months or years, building a local date from its fields
      and parsing a "Y-M-D" text depend on the calendar and the time zone, so
      those results are kept as the `Date` operation that produces them. */
  datatype Instant =
    | Epoch(ms: int)                                // an exact instant
    | MonthsBefore(base: int, months: nat)          // date.setMonth(date.getMonth() - months)
    | YearsBefore(base: int, years: nat)            // date.setFullYear(date.getFullYear() - years)
    | LocalMidnight(year: nat, month: nat, day: nat) // new Date(year, month, day)
    | NumericDate(dayText: string, monthText: string, yearText: string) // new Date(`${y}-${m}-${d}`)

  /** The month lexicon: word (lower case) to month index. */
  const MonthIndex: map<string, nat> := map[
    "jan" := 0, "janv" := 0, "janvier" := 0,
    "fév" := 1, "févr" := 1, "février" := 1,
    "mar" := 2, "mars" := 2,
    "avr" := 3, "avril" := 3,
    "mai" := 4,
    "jun" := 5, "juin" := 5,
    "jul" := 6, "juil" := 6, "juillet" := 6,
    "aoû" := 7, "août" := 7,
    "sep" := 8, "sept" := 8, "septembre" := 8,
    "oct" := 9, "octobre" := 9,
    "nov" := 10, "novembre" := 10,
    "déc" := 11, "décembre" := 11
  ]

  /** Every month index of the lexicon is a JavaScript month, 0 to 11, and
      every month has at least one word. */
  lemma MonthIndexIsMonth()
    ensures forall w :: w in MonthIndex ==> MonthIndex[w] < 12
    ensures forall m: nat :: m < 12 ==> m in MonthIndex.Values
  {
    assert forall w :: w in MonthIndex ==> MonthIndex[w] < 12 by {
      MonthIndexBounded();
    }
    FirstMonthsCovered();
    MiddleMonthsCovered();
    LastMonthsCovered();
  }

  lemma MonthIndexBounded()
    ensures forall w :: w in MonthIndex ==> MonthIndex[w] < 12
  {
  }

  lemma FirstMonthsCovered()
    ensures forall m: nat :: m < 4 ==> m in MonthIndex.Values
  {
    assert MonthIndex["jan"] == 0 && MonthIndex["fév"] == 1;
    assert MonthIndex["mar"] == 2 && MonthIndex["avr"] == 3;
  }

  lemma MiddleMonthsCovered()
    ensures forall m: nat :: 4 <= m < 8 ==> m in MonthIndex.Values
  {
    assert MonthIndex["mai"] == 4 && MonthIndex["jun"] == 5;
    assert MonthIndex["jul"] == 6 && MonthIndex["aoû"] == 7;
  }

  lemma LastMonthsCovered()
    ensures forall m: nat :: 8 <= m < 12 ==> m in MonthIndex.Values
  {
    assert MonthIndex["sep"] == 8 && MonthIndex["oct"] == 9;
    assert MonthIndex["nov"] == 10 && MonthIndex["déc"] == 11;
  }

  // ---------------------------------------------------------------------------
  // Relative phrases

  /** "il y a N <unit>", case-insensitive. `loose` is the scraper's form
      (`il\s+y\s+a\s+(\d+)\s*unit`); otherwise the front end's
      (`il y a (\d+)\s*unit`, single spaces). */
  function RelativePhrase(unit: string, loose: bool): (p: Pattern)
    ensures CaptureCount(p.tokens) == 1
  {
    var head := RelativeHead(loose);
    CaptureCountAppend(head, [Lit(unit)]);
    Pattern(head + [Lit(unit)], true)
  }

  /** The tokens before the unit word. */
  function RelativeHead(loose: bool): (ts: seq<Token>)
    ensures CaptureCount(ts) == 1
  {
    if loose then
      CaptureCountAppend(LooseHeadIlY, LooseHeadACount);
      LooseHeadIlY + LooseHeadACount
    else StrictHead
  }

  const LooseHeadIlY: seq<Token> := [Lit("il"), Spaces(true), Lit("y"), Spaces(true)]
  const LooseHeadACount: seq<Token> := [Lit("a"), Spaces(true), Digits(1, 0), Spaces(false)]
  const StrictHead: seq<Token> := [Lit("il y a "), Digits(1, 0), Spaces(false)]

  /** N of the first "il y a N <unit>" phrase in `text`, if there is one. */
  function PhraseCount(text: string, unit: string, loose: bool): (r: Option<nat>)
    ensures r.None? <==> Search(text, RelativePhrase(unit, loose)).None?
  {
    match Search(text, RelativePhrase(unit, loose))
    case Some(m) => Some(DigitsValue(m.groups[0]))
    case None => None
  }

  /** None of the relative phrases occurs in `text`. */
  predicate NoPhrase(text: string, loose: bool)
  {
    && PhraseCount(text, "jour", loose).None?
    && PhraseCount(text, "semaine", loose).None?
    && PhraseCount(text, "mois", loose).None?
    && PhraseCount(text, "an", loose).None?
  }

  predicate HasTodayKeyword(text: string)
  {
    Contains(text, "aujourd") || Contains(text, "auj.")
  }

  /** The cascade shared by `parseRelativeDate` and `parseRelativeDateText`,
      applied to the lower-cased trimmed text: days, then weeks (7 days each),
      then months, then years, then "aujourd"/"auj." (now), then "hier"
      (one day before now). The first unit that has a phrase decides, whatever
      phrases of later units the text holds. */
  function ResolveRelative(text: string, now: int, loose: bool): (r: Option<Instant>)
    ensures PhraseCount(text, "jour", loose).Some? ==>
              r == Some(Epoch(now - PhraseCount(text, "jour", loose).value * DayMs))
    ensures PhraseCount(text, "jour", loose).None? && PhraseCount(text, "semaine", loose).Some? ==>
              r == Some(Epoch(now - 7 * PhraseCount(text, "semaine", loose).value * DayMs))
    ensures PhraseCount(text, "jour", loose).None? && PhraseCount(text, "semaine", loose).None?
            && PhraseCount(text, "mois", loose).Some? ==>
              r == Some(MonthsBefore(now, PhraseCount(text, "mois", loose).value))
    ensures PhraseCount(text, "jour", loose).None? && PhraseCount(text, "semaine", loose).None?
            && PhraseCount(text, "mois", loose).None? && PhraseCount(text, "an", loose).Some? ==>
              r == Some(YearsBefore(now, PhraseCount(text, "an", loose).value))
    ensures NoPhrase(text, loose) && HasTodayKeyword(text) ==> r == Some(Epoch(now))
    ensures NoPhrase(text, loose) && !HasTodayKeyword(text) && Contains(text, "hier") ==>
              r == Some(Epoch(now - DayMs))
    ensures r.None? <==> NoPhrase(text, loose) && !HasTodayKeyword(text) && !Contains(text, "hier")
  {
    match PhraseCount(text, "jour", loose)
    case Some(n) => Some(Epoch(now - n * DayMs))
    case None =>
      match PhraseCount(text, "semaine", loose)
      case Some(n) => Some(Epoch(now - 7 * n * DayMs))
      case None =>
        match PhraseCount(text, "mois", loose)
        case Some(n) => Some(MonthsBefore(now, n))
        case None =>
          match PhraseCount(text, "an", loose)
          case Some(n) => Some(YearsBefore(now, n))
          case None =>
            if HasTodayKeyword(text) then Some(Epoch(now))
            else if Contains(text, "hier") then Some(Epoch(now - DayMs))
            else None
  }

  /** DD/MM/YYYY anywhere in the text. */
  const NumericDatePattern: Pattern :=
    Pattern([Digits(1, 2), Lit("/"), Digits(1, 2), Lit("/"), Digits(4, 4)], false)

  /** The numeric date pattern captures day, month and year. */
  lemma NumericDateCaptures()
    ensures CaptureCount(NumericDatePattern.tokens) == 3
  {
    var ts := NumericDatePattern.tokens;
    assert ts[1..][1..][1..][1..][1..] == [];
  }

  /** `parseRelativeDate` of senscritique-scraper.js: empty text gives nothing;
      otherwise the relative cascade on the lower-cased trimmed text, and
      last a numeric DD/MM/YYYY date found in the original text. */
  function ParseRelativeDate(dateText: string, now: int): (r: Option<Instant>)
    ensures dateText == [] ==> r.None?
    ensures dateText != [] && ResolveRelative(Trim(Lower(dateText)), now, true).Some? ==>
              r == ResolveRelative(Trim(Lower(dateText)), now, true)
    ensures r.None? <==>
              dateText == [] ||
              (ResolveRelative(Trim(Lower(dateText)), now, true).None? && Search(dateText, NumericDatePattern).None?)
  {
    if dateText == [] then None
    else
      match ResolveRelative(Trim(Lower(dateText)), now, true)
      case Some(i) => Some(i)
      case None =>
        NumericDateCaptures();
        match Search(dateText, NumericDatePattern)
        case Some(m) => Some(NumericDate(m.groups[0], m.groups[1], m.groups[2]))
        case None => None
  }

  /** A numeric D/M/YYYY result means that the relative cascade found nothing
      and that the text does hold a numeric date. */
  lemma ParseRelativeDateNumeric(dateText: string, now: int)
    ensures var r := ParseRelativeDate(dateText, now);
            r.Some? && r.value.NumericDate? ==>
              ResolveRelative(Trim(Lower(dateText)), now, true).None?
              && Search(dateText, NumericDatePattern).Some?
    ensures var m := Search(dateText, NumericDatePattern);
            dateText != [] && ResolveRelative(Trim(Lower(dateText)), now, true).None? && m.Some? ==>
              |m.value.groups| == 3 &&
              ParseRelativeDate(dateText, now) == Some(NumericDate(m.value.groups[0], m.value.groups[1], m.value.groups[2]))
  {
    NumericDateCaptures();
    if dateText != [] {
      match ResolveRelative(Trim(Lower(dateText)), now, true)
      case Some(i) =>
      case None =>
    }
  }

  // ---------------------------------------------------------------------------
  // Absolute dates "le D <mois>[.] YYYY"

  /** `le\s+(\d{1,2})\s+(\w+)\.?\s+(\d{4})` with the `i` flag. `wordClass` is
      the class the month word is read with: JavaScript's `\w` (ASCII only) as
      written, or `LetterWord` for the corrected recogniser. */
  function FrenchDatePattern(wordClass: CharClass): (p: Pattern)
    ensures CaptureCount(p.tokens) == 3
  {
    CaptureCountAppend(FrenchDateHead, [Word(wordClass)]);
    CaptureCountAppend(FrenchDateHead + [Word(wordClass)], FrenchDateTail);
    Pattern(FrenchDateHead + [Word(wordClass)] + FrenchDateTail, true)
  }

  /** "le D " and "[.] YYYY", the parts around the month word. */
  const FrenchDateHead: seq<Token> := [Lit("le"), Spaces(true), Digits(1, 2), Spaces(true)]
  const FrenchDateTail: seq<Token> := [OptDot, Spaces(true), Digits(4, 4)]

  /** The first "le D <word> YYYY" of the text, resolved with the lexicon. Only
      the first such phrase is looked at: an unknown word gives nothing even if
      a later phrase would have a known one. */
  function ParseFrenchDateWith(dateText: string, wordClass: CharClass): (r: Option<Instant>)
    ensures r.Some? ==>
              && Search(dateText, FrenchDatePattern(wordClass)).Some?
              && var g := Search(dateText, FrenchDatePattern(wordClass)).value.groups;
              && Lower(g[1]) in MonthIndex
              && r.value == LocalMidnight(DigitsValue(g[2]), MonthIndex[Lower(g[1])], DigitsValue(g[0]))
    ensures r.None? <==>
              || Search(dateText, FrenchDatePattern(wordClass)).None?
              || Lower(Search(dateText, FrenchDatePattern(wordClass)).value.groups[1]) !in MonthIndex
  {
    if dateText == [] then None
    else
      match Search(dateText, FrenchDatePattern(wordClass))
      case None => None
      case Some(m) =>
        var word := Lower(m.groups[1]);
        if word in MonthIndex then
          Some(LocalMidnight(DigitsValue(m.groups[2]), MonthIndex[word], DigitsValue(m.groups[0])))
        else None
  }

  /** `parseFrenchDate` of senscritique-scraper.js (and `parseFrenchDateText`
      of date.js, the same recogniser) exactly as written: the month word is
      read with JavaScript's `\w`, which has no accented letter. */
  function ParseFrenchDateAsWritten(dateText: string): Option<Instant>
  {
    ParseFrenchDateWith(dateText, AsciiWord)
  }

  /** The recogniser as its lexicon intends it: the month word may hold the
      accented letters of "fév", "août" or "déc". The rest of the model uses
      this one. */
  function ParseFrenchDate(dateText: string): Option<Instant>
  {
    ParseFrenchDateWith(dateText, LetterWord)
  }

  // ---------------------------------------------------------------------------
  // Properties of the absolute-date recogniser

  /** The words of the lexicon, as listed, in three parts. */
  const WinterSpringWords: set<string> :=
    {"jan", "janv", "janvier", "fév", "févr", "février", "mar", "mars", "avr"}
  const SummerWords: set<string> :=
    {"avril", "mai", "jun", "juin", "jul", "juil", "juillet", "aoû", "août"}
  const AutumnWords: set<string> :=
    {"sep", "sept", "septembre", "oct", "octobre", "nov", "novembre", "déc", "décembre"}

  /** The letters the lexicon is written with. */
  predicate IsMonthLetter(c: char)
  {
    ('a' <= c <= 'z') || c == 'é' || c == 'û'
  }

  lemma MonthLetterIsLowerLetter(c: char)
    requires IsMonthLetter(c)
    ensures InClass(c, LetterWord) && LowerChar(c) == c
  {
  }

  /** A non-empty word of the lexicon's letters. */
  predicate LowerLetters(w: string)
  {
    w != [] && LowerLettersFrom(w)
  }

  predicate LowerLettersFrom(w: string)
  {
    w == [] || (IsMonthLetter(w[0]) && LowerLettersFrom(w[1..]))
  }

  lemma {:induction false} LowerLettersFromAt(w: string, i: nat)
    requires LowerLettersFrom(w) && i < |w|
    ensures InClass(w[i], LetterWord) && LowerChar(w[i]) == w[i]
    decreases i
  {
    if i > 0 {
      LowerLettersFromAt(w[1..], i - 1);
    } else {
      MonthLetterIsLowerLetter(w[0]);
    }
  }

  lemma MonthIndexWordsListed(w: string)
    requires w in MonthIndex
    ensures w in WinterSpringWords || w in SummerWords || w in AutumnWords
  {
  }

  lemma WinterSpringWordsAreLetters()
    ensures forall w :: w in WinterSpringWords ==> LowerLetters(w)
  {
    JanuaryFebruaryLetters();
    FebruaryAprilLetters();
  }

  lemma JanuaryFebruaryLetters()
    ensures forall w :: w in {"jan", "janv", "janvier", "fév", "févr"} ==> LowerLetters(w)
  {
    assert LowerLetters("jan");
    assert LowerLetters("janv");
    assert LowerLetters("janvier");
    assert LowerLetters("fév");
    assert LowerLetters("févr");
  }

  lemma FebruaryAprilLetters()
    ensures forall w :: w in {"février", "mar", "mars", "avr"} ==> LowerLetters(w)
  {
    assert LowerLetters("février");
    assert LowerLetters("mar");
    assert LowerLetters("mars");
    assert LowerLetters("avr");
  }

  lemma SummerWordsAreLetters()
    ensures forall w :: w in SummerWords ==> LowerLetters(w)
  {
    AprilJuneLetters();
    JulyAugustLetters();
  }

  lemma AprilJuneLetters()
    ensures forall w :: w in {"avril", "mai", "jun", "juin", "jul"} ==> LowerLetters(w)
  {
    assert LowerLetters("avril");
    assert LowerLetters("mai");
    assert LowerLetters("jun");
    assert LowerLetters("juin");
    assert LowerLetters("jul");
  }

  lemma JulyAugustLetters()
    ensures forall w :: w in {"juil", "juillet", "aoû", "août"} ==> LowerLetters(w)
  {
    assert LowerLetters("juil");
    assert LowerLetters("juillet");
    assert LowerLetters("aoû");
    assert LowerLetters("août");
  }

  lemma AutumnWordsAreLetters()
    ensures forall w :: w in AutumnWords ==> LowerLetters(w)
  {
    SeptemberOctoberLetters();
    NovemberDecemberLetters();
  }

  lemma SeptemberOctoberLetters()
    ensures forall w :: w in {"sep", "sept", "septembre", "oct", "octobre"} ==> LowerLetters(w)
  {
    assert LowerLetters("sep");
    assert LowerLetters("sept");
    assert LowerLetters("septembre");
    assert LowerLetters("oct");
    assert LowerLetters("octobre");
  }

  lemma NovemberDecemberLetters()
    ensures forall w :: w in {"nov", "novembre", "déc", "décembre"} ==> LowerLetters(w)
  {
    assert LowerLetters("nov");
    assert LowerLetters("novembre");
    assert LowerLetters("déc");
    assert LowerLetters("décembre");
  }

  /** Every word of the lexicon is a lower-case word of letters (ASCII or
      accented), so `Lower` leaves it unchanged and `LetterWord` reads all of it. */
  lemma MonthWordIsLetters(w: string)
    requires w in MonthIndex
    ensures w != [] && IsLowerCase(w)
    ensures forall i :: 0 <= i < |w| ==> InClass(w[i], LetterWord)
  {
    MonthWordLowerLetters(w);
    forall i | 0 <= i < |w|
      ensures InClass(w[i], LetterWord) && LowerChar(w[i]) == w[i]
    {
      LowerLettersFromAt(w, i);
    }
  }

  lemma MonthWordLowerLetters(w: string)
    requires w in MonthIndex
    ensures LowerLetters(w)
  {
    MonthIndexWordsListed(w);
    if w in WinterSpringWords {
      WinterSpringWordsAreLetters();
    } else if w in SummerWords {
      SummerWordsAreLetters();
    } else {
      AutumnWordsAreLetters();
    }
  }

  /** "le D <word>[.] YYYY", the shape the absolute form of `getTimeAgo` in
      date.js produces ("le 4 nov. 2025"). */
  function FrenchDateText(day: nat, word: string, dot: bool, year: nat): string
  {
    "le " + NatToString(day) + " " + word + (if dot then "." else "") + " " + NatToString(year)
  }

  /** Where the parts of `FrenchDateText` lie. */
  lemma FrenchDateTextLayout(day: nat, word: string, dot: bool, year: nat)
    requires day < 100 && 1000 <= year < 10000
    ensures var s, D, Y := FrenchDateText(day, word, dot, year), NatToString(day), NatToString(year);
            var p3 := 4 + |D| + |word|;
            var p5 := p3 + (if dot then 1 else 0) + 1;
            && |s| == p5 + 4 && s[..2] == "le" && s[2] == ' ' && s[3 + |D|] == ' '
            && s[p5 - 1] == ' ' && (dot ==> s[p3] == '.')
            && s[3..3 + |D|] == D && s[4 + |D|..p3] == word && s[p5..] == Y
  {
    var D, Y := NatToString(day), NatToString(year);
    var dotText := if dot then "." else "";
    assert FrenchDateText(day, word, dot, year) == ("le " + D + " " + word) + (dotText + " " + Y);
    PartsLayout(D, word, dotText, Y);
  }

  lemma PartsLayout(D: string, word: string, dotText: string, Y: string)
    requires |dotText| <= 1 && |Y| == 4
    ensures var front, back := "le " + D + " " + word, dotText + " " + Y;
            var s := front + back;
            var p3 := 4 + |D| + |word|;
            var p5 := p3 + |dotText| + 1;
            && |s| == p5 + 4 && s[..2] == "le" && s[2] == ' ' && s[3 + |D|] == ' '
            && s[p5 - 1] == ' ' && (dotText != [] ==> s[p3] == dotText[0])
            && s[3..3 + |D|] == D && s[4 + |D|..p3] == word && s[p5..] == Y
  {
    var front, back := "le " + D + " " + word, dotText + " " + Y;
    var s := front + back;
    assert front[3..3 + |D|] == D;
    assert front[4 + |D|..] == word;
    assert back[|dotText|] == ' ' && back[|dotText| + 1..] == Y;
    assert s[|front|..] == back;
    assert s[..|front|] == front;
  }

  /** The pattern matches such a text from its first character to its last and
      captures the day, the word and the year, provided the word class reads
      the whole word. */
  lemma {:induction false} FrenchDateTextMatches(day: nat, word: string, dot: bool, year: nat, cls: CharClass)
    requires day < 100 && 1000 <= year < 10000
    requires cls.AsciiWord? || cls.LetterWord?
    requires word != [] && forall i :: 0 <= i < |word| ==> InClass(word[i], cls)
    ensures var s := FrenchDateText(day, word, dot, year);
            MatchTokens(s, 0, FrenchDatePattern(cls).tokens, true)
              == Some((|s|, [NatToString(day), word, NatToString(year)]))
  {
    var D, Y := NatToString(day), NatToString(year);
    var s := FrenchDateText(day, word, dot, year);
    FrenchDateTextLayout(day, word, dot, year);
    var p1 := 3 + |D|;
    var p3 := p1 + 1 + |word|;
    var p4 := p3 + (if dot then 1 else 0);
    FrenchDateRuns(s, D, word, Y, cls, p1, p3, p4);
    FrenchDateSteps(s, cls, p1, p3, p4, dot);
  }

  /** The runs of characters the tokens consume in a text laid out as
      "le D <word>[.] YYYY". */
  lemma FrenchDateRuns(s: string, D: string, word: string, Y: string, cls: CharClass, p1: nat, p3: nat, p4: nat)
    requires cls.AsciiWord? || cls.LetterWord?
    requires 1 <= |D| <= 2 && AllDigits(D) && |Y| == 4 && AllDigits(Y)
    requires word != [] && forall i :: 0 <= i < |word| ==> InClass(word[i], cls)
    requires p1 == 3 + |D| && p3 == p1 + 1 + |word| && p3 <= p4 <= p3 + 1 && |s| == p4 + 5
    requires s[2] == ' ' && s[p1] == ' ' && s[p4] == ' ' && (p4 == p3 + 1 ==> s[p3] == '.')
    requires s[3..p1] == D && s[p1 + 1..p3] == word && s[p4 + 1..] == Y
    ensures Run(s, 2, Space) == 1 && Run(s, 3, Digit) == |D| && Run(s, p1, Space) == 1
    ensures Run(s, p1 + 1, cls) == |word| && Run(s, p4, Space) == 1 && Run(s, p4 + 1, Digit) == 4
  {
    assert s[3] == D[0] && s[p1 + 1] == word[0];
    assert forall j :: 3 <= j < p1 ==> s[j] == D[j - 3];
    RunIs(s, 2, Space, 1);
    RunIs(s, 3, Digit, |D|);
    RunIs(s, p1, Space, 1);
    FrenchDateWordRuns(s, word, Y, cls, p1 + 1, p3, p4);
  }

  lemma FrenchDateWordRuns(s: string, word: string, Y: string, cls: CharClass, p2: nat, p3: nat, p4: nat)
    requires cls.AsciiWord? || cls.LetterWord?
    requires |Y| == 4 && AllDigits(Y)
    requires word != [] && forall i :: 0 <= i < |word| ==> InClass(word[i], cls)
    requires p3 == p2 + |word| && p3 <= p4 <= p3 + 1 && |s| == p4 + 5
    requires s[p4] == ' ' && (p4 == p3 + 1 ==> s[p3] == '.')
    requires s[p2..p3] == word && s[p4 + 1..] == Y
    ensures Run(s, p2, cls) == |word| && Run(s, p4, Space) == 1 && Run(s, p4 + 1, Digit) == 4
  {
    assert Run(s, p2, cls) == |word| by {
      forall j | p2 <= j < p3
        ensures InClass(s[j], cls)
      {
        assert s[j] == s[p2..p3][j - p2];
      }
      RunIs(s, p2, cls, |word|);
    }
    assert Run(s, p4, Space) == 1 by {
      RunIs(s, p4, Space, 1);
    }
    assert Run(s, p4 + 1, Digit) == 4 by {
      forall j | p4 + 1 <= j < |s|
        ensures InClass(s[j], Digit)
      {
        assert s[j] == s[p4 + 1..][j - p4 - 1];
      }
      RunIs(s, p4 + 1, Digit, 4);
    }
  }

  lemma FrenchDateSteps(s: string, cls: CharClass, p1: nat, p3: nat, p4: nat, dot: bool)
    requires 4 <= p1 + 1 < p3 && p4 == p3 + (if dot then 1 else 0) && p4 + 5 == |s|
    requires s[..2] == "le" && (dot ==> s[p3] == '.') && (!dot ==> s[p3] == ' ')
    requires Run(s, 2, Space) == 1 && Run(s, 3, Digit) == p1 - 3 <= 2 && Run(s, p1, Space) == 1
    requires Run(s, p1 + 1, cls) == p3 - p1 - 1 && Run(s, p4, Space) == 1 && Run(s, p4 + 1, Digit) == 4
    ensures MatchTokens(s, 0, FrenchDatePattern(cls).tokens, true)
              == Some((|s|, [s[3..p1], s[p1 + 1..p3], s[p4 + 1..]]))
  {
    FrenchDateHeadMatches(s, p1);
    FrenchDateTailMatches(s, p3, p4, dot);
    WordBetween(s, FrenchDateHead, cls, FrenchDateTail, p1 + 1, p3, s[3..p1], s[p4 + 1..]);
  }

  /** A word between two token sequences that match around it. */
  lemma WordBetween(s: string, head: seq<Token>, cls: CharClass, tail: seq<Token>,
                    p: nat, q: nat, g: string, h: string)
    requires p < q <= |s|
    requires MatchTokens(s, 0, head, true) == Some((p, [g]))
    requires Run(s, p, cls) == q - p
    requires MatchTokens(s, q, tail, true) == Some((|s|, [h]))
    ensures MatchTokens(s, 0, head + [Word(cls)] + tail, true) == Some((|s|, [g, s[p..q], h]))
  {
    HeadThenWord(s, head, cls, p, q, g);
    MatchTokensAppend(s, 0, head + [Word(cls)], tail, true, q, |s|, [g, s[p..q]], [h]);
    assert [g, s[p..q]] + [h] == [g, s[p..q], h];
  }

  lemma HeadThenWord(s: string, head: seq<Token>, cls: CharClass, p: nat, q: nat, g: string)
    requires p < q <= |s|
    requires MatchTokens(s, 0, head, true) == Some((p, [g]))
    requires Run(s, p, cls) == q - p
    ensures MatchTokens(s, 0, head + [Word(cls)], true) == Some((q, [g, s[p..q]]))
  {
    var word := s[p..q];
    MatchTokensCons(s, p, [Word(cls)], true, q - p, q, []);
    assert [word] + [] == [word];
    MatchTokensAppend(s, 0, head, [Word(cls)], true, p, q, [g], [word]);
    assert [g] + [word] == [g, word];
  }

  lemma FrenchDateHeadMatches(s: string, p1: nat)
    requires 4 <= p1 + 1 <= |s| && s[..2] == "le"
    requires Run(s, 2, Space) == 1 && Run(s, 3, Digit) == p1 - 3 <= 2 && Run(s, p1, Space) == 1
    ensures MatchTokens(s, 0, FrenchDateHead, true) == Some((p1 + 1, [s[3..p1]]))
  {
    var ts := FrenchDateHead;
    assert ts[3..][1..] == [];
    MatchTokensCons(s, p1, ts[3..], true, 1, p1 + 1, []);
    MatchTokensCons(s, 3, ts[2..], true, p1 - 3, p1 + 1, []);
    assert [s[3..p1]] + [] == [s[3..p1]];
    MatchTokensCons(s, 2, ts[1..], true, 1, p1 + 1, [s[3..p1]]);
    LitAtStart(s, "le", true);
    MatchTokensCons(s, 0, ts, true, 2, p1 + 1, [s[3..p1]]);
  }

  lemma FrenchDateTailMatches(s: string, p3: nat, p4: nat, dot: bool)
    requires p4 == p3 + (if dot then 1 else 0) && p4 + 5 == |s|
    requires (dot ==> s[p3] == '.') && (!dot ==> s[p3] == ' ')
    requires Run(s, p4, Space) == 1 && Run(s, p4 + 1, Digit) == 4
    ensures MatchTokens(s, p3, FrenchDateTail, true) == Some((|s|, [s[p4 + 1..]]))
  {
    var ts := FrenchDateTail;
    var Y := s[p4 + 1..];
    assert ts[2..][1..] == [];
    assert s[p4 + 1..p4 + 5] == Y;
    MatchTokensCons(s, p4 + 1, ts[2..], true, 4, |s|, []);
    assert [Y] + [] == [Y];
    MatchTokensCons(s, p4, ts[1..], true, 1, |s|, [Y]);
    MatchTokensCons(s, p3, ts, true, p4 - p3, |s|, [Y]);
  }

  /** Round trip: the corrected recogniser reads back the day, the month and
      the year of "le D <word>[.] YYYY" for every word of the lexicon. */
  lemma FrenchDateRoundTrip(day: nat, word: string, dot: bool, year: nat)
    requires day < 100 && 1000 <= year < 10000 && word in MonthIndex
    ensures ParseFrenchDate(FrenchDateText(day, word, dot, year))
              == Some(LocalMidnight(year, MonthIndex[word], day))
  {
    MonthWordIsLetters(word);
    LowerOfLowerCase(word);
    var s := FrenchDateText(day, word, dot, year);
    FrenchDateTextMatches(day, word, dot, year, LetterWord);
    SearchAtStart(s, FrenchDatePattern(LetterWord));
  }

  // ---------------------------------------------------------------------------
  // The recogniser as written never yields February, August or December

  /** Every lexicon word for February, August and December has an accented
      letter among its first three characters. */
  lemma AccentedMonthWords(w: string)
    requires w in MonthIndex && MonthIndex[w] in {1, 7, 11}
    ensures |w| >= 3 && (!IsAsciiWordChar(w[1]) || !IsAsciiWordChar(w[2]))
  {
    MonthIndexWordsListed(w);
    if w in WinterSpringWords {
      assert w in ["fév", "févr", "février"];
    } else if w in SummerWords {
      assert w in ["aoû", "août"];
    } else {
      assert w in ["déc", "décembre"];
    }
  }

  /** A month word read by JavaScript's `\w` is plain ASCII, so it is never one
      of the accented words: as written, "le 4 déc. 2025", "le 1 févr. 2024" and
      "le 15 août 2023" are never recognised, nor any other date of those three
      months. */
  lemma AsWrittenMissesAccentedMonths(text: string)
    ensures ParseFrenchDateAsWritten(text).Some? ==> ParseFrenchDateAsWritten(text).value.month !in {1, 7, 11}
  {
    var r := ParseFrenchDateAsWritten(text);
    if r.Some? {
      var m := Search(text, FrenchDatePattern(AsciiWord)).value;
      var head, word, tail := FrenchDateHead, [Word(AsciiWord)], FrenchDateTail;
      assert FrenchDatePattern(AsciiWord).tokens == (head + word) + tail;
      var m1, ga, gb := MatchTokensSplit(text, m.start, head + word, tail, true);
      var m0, gh, gw := MatchTokensSplit(text, m.start, head, word, true);
      assert word == [Word(AsciiWord)] + [];
      WordCapture(text, m0, AsciiWord, [], true);
      assert CaptureCount(head) == 1;
      assert m.groups == gh + gw + gb;
      assert m.groups[1] == gw[0];
      var key := Lower(gw[0]);
      forall k | 0 <= k < |key|
        ensures IsAsciiWordChar(key[k])
      {
        LowerAsciiWordChar(gw[0][k]);
      }
      if MonthIndex[key] in {1, 7, 11} {
        AccentedMonthWords(key);
        assert false;
      }
    }
  }

  /** "le 4 déc. 2025", the shape `getTimeAgo` of date.js renders for
      4 December 2025: the corrected recogniser reads it back, the one as
      written does not. */
  lemma AccentedMonthCounterexample()
    ensures ParseFrenchDate("le 4 déc. 2025") == Some(LocalMidnight(2025, 11, 4))
    ensures ParseFrenchDateAsWritten("le 4 déc. 2025") != ParseFrenchDate("le 4 déc. 2025")
  {
    assert NatToString(4) == "4";
    assert NatToString(2025) == "2025";
    assert FrenchDateText(4, "déc", true, 2025) == "le 4 déc. 2025";
    FrenchDateRoundTrip(4, "déc", true, 2025);
    AsWrittenMissesAccentedMonths("le 4 déc. 2025");
  }

  // ---------------------------------------------------------------------------
  // Round trips of the relative phrases

  /** "il y a N <word>", the text `getTimeAgo` of date.js renders for a
      relative date and the text the review site shows. */
  function RelativeText(n: nat, word: string): string
  {
    "il y a " + NatToString(n) + " " + word
  }

  /** The unit words `getTimeAgo` and the review site write. */
  predicate IsUnitWord(w: string)
  {
    w in ["jour", "jours", "semaine", "semaines", "mois", "an", "ans"]
  }

  /** Where the parts of `RelativeText` lie, and what its characters are. */
  lemma RelativeTextLayout(n: nat, word: string)
    requires IsUnitWord(word)
    ensures var s, D := RelativeText(n, word), NatToString(n);
            && |s| == 8 + |D| + |word|
            && s[..2] == "il" && s[..7] == "il y a " && s[2] == ' ' && s[3] == 'y' && s[4] == ' '
            && s[5] == 'a' && s[6] == ' ' && s[7..7 + |D|] == D && s[7 + |D|] == ' '
            && s[8 + |D|..] == word
  {
    var s, D := RelativeText(n, word), NatToString(n);
    var front := "il y a " + D;
    assert s == front + " " + word;
    assert front[7..] == D;
  }

  /** A relative text is lower case, has no white space at its ends and no "l"
      after its second character. */
  lemma RelativeTextChars(n: nat, word: string)
    requires IsUnitWord(word)
    ensures var s := RelativeText(n, word);
            && IsLowerCase(s) && !IsSpace(s[0]) && !IsSpace(s[|s| - 1])
            && forall k :: 2 <= k < |s| ==> LowerChar(s[k]) != 'l'
  {
    var s, D := RelativeText(n, word), NatToString(n);
    RelativeTextLayout(n, word);
    UnitWordLetters(word);
    LaidOutChars(s, D, word);
  }

  /** Lower-case ASCII letters other than "l". */
  predicate UnitLetters(w: string)
  {
    w == [] || ('a' <= w[0] <= 'z' && w[0] != 'l' && UnitLetters(w[1..]))
  }

  lemma {:induction false} UnitLettersAt(w: string, i: nat)
    requires UnitLetters(w) && i < |w|
    ensures 'a' <= w[i] <= 'z' && w[i] != 'l'
    decreases i
  {
    if i > 0 {
      UnitLettersAt(w[1..], i - 1);
    }
  }

  /** The unit words are spelt with lower-case letters and no "l". */
  lemma UnitWordLetters(word: string)
    requires IsUnitWord(word)
    ensures word != [] && forall k :: 0 <= k < |word| ==> 'a' <= word[k] <= 'z' && word[k] != 'l'
  {
    assert UnitLetters(word) && word != [] by {
      DayWeekLetters();
      MonthYearLetters();
    }
    forall k | 0 <= k < |word|
      ensures 'a' <= word[k] <= 'z' && word[k] != 'l'
    {
      UnitLettersAt(word, k);
    }
  }

  lemma DayWeekLetters()
    ensures forall w :: w in {"jour", "jours", "semaine", "semaines"} ==> UnitLetters(w)
  {
    assert UnitLetters("jour") && UnitLetters("jours");
    assert UnitLetters("semaine") && UnitLetters("semaines");
  }

  lemma MonthYearLetters()
    ensures forall w :: w in {"mois", "an", "ans"} ==> UnitLetters(w)
  {
    assert UnitLetters("mois") && UnitLetters("an") && UnitLetters("ans");
  }

  lemma LaidOutChars(s: string, D: string, word: string)
    requires |s| == 8 + |D| + |word| && word != [] && AllDigits(D)
    requires s[..7] == "il y a " && s[7..7 + |D|] == D && s[7 + |D|] == ' ' && s[8 + |D|..] == word
    requires forall k :: 0 <= k < |word| ==> 'a' <= word[k] <= 'z' && word[k] != 'l'
    ensures IsLowerCase(s) && !IsSpace(s[0]) && !IsSpace(s[|s| - 1])
    ensures forall k :: 2 <= k < |s| ==> LowerChar(s[k]) != 'l'
  {
    assert forall k :: 0 <= k < 7 ==> s[k] == "il y a "[k];
    assert forall k :: 7 <= k < 7 + |D| ==> s[k] == D[k - 7];
    assert forall k :: 8 + |D| <= k < |s| ==> s[k] == word[k - 8 - |D|];
  }

  /** The runs of white space and digits in a text laid out as "il y a D w". */
  lemma RelativeRuns(s: string, d: nat)
    requires |s| > 8 + d && d >= 1 && s[..7] == "il y a " && s[7 + d] == ' ' && !IsSpace(s[8 + d])
    requires forall k :: 7 <= k < 7 + d ==> IsDigit(s[k])
    ensures Run(s, 2, Space) == 1 && Run(s, 4, Space) == 1 && Run(s, 6, Space) == 1
    ensures Run(s, 7, Digit) == d && Run(s, 7 + d, Space) == 1
  {
    assert s[2] == ' ' && s[3] == 'y' && s[4] == ' ' && s[6] == ' ' && s[5] == 'a';
    OneSpace(s, 2);
    OneSpace(s, 4);
    OneSpace(s, 6);
    RunIs(s, 7, Digit, d);
    OneSpace(s, 7 + d);
  }

  /** Both heads match a text laid out as "il y a D w", D a run of digits. */
  lemma HeadMatchesLaidOut(s: string, D: string, loose: bool)
    requires |s| > 8 + |D| && D != [] && AllDigits(D)
    requires s[..7] == "il y a " && s[7..7 + |D|] == D && s[7 + |D|] == ' ' && !IsSpace(s[8 + |D|])
    ensures MatchTokens(s, 0, RelativeHead(loose), true) == Some((8 + |D|, [D]))
  {
    assert forall k :: 7 <= k < 7 + |D| ==> s[k] == D[k - 7];
    RelativeRuns(s, |D|);
    if loose {
      LooseHeadFromRuns(s, |D|);
    } else {
      StrictHeadFromRuns(s, |D|);
    }
  }

  lemma LooseHeadFromRuns(s: string, d: nat)
    requires |s| > 8 + d && d >= 1 && s[..7] == "il y a "
    requires Run(s, 2, Space) == 1 && Run(s, 4, Space) == 1 && Run(s, 6, Space) == 1
    requires Run(s, 7, Digit) == d && Run(s, 7 + d, Space) == 1
    ensures MatchTokens(s, 0, LooseHeadIlY + LooseHeadACount, true) == Some((8 + d, [s[7..7 + d]]))
  {
    assert s[..2] == "il" && s[3] == 'y' && s[5] == 'a';
    IlYMatches(s);
    ACountMatches(s, d);
    MatchTokensAppend(s, 0, LooseHeadIlY, LooseHeadACount, true, 5, 8 + d, [], [s[7..7 + d]]);
    assert [] + [s[7..7 + d]] == [s[7..7 + d]];
  }

  lemma StrictHeadFromRuns(s: string, d: nat)
    requires |s| > 8 + d && d >= 1 && s[..7] == "il y a "
    requires Run(s, 7, Digit) == d && Run(s, 7 + d, Space) == 1
    ensures MatchTokens(s, 0, StrictHead, true) == Some((8 + d, [s[7..7 + d]]))
  {
    CountAfter(s, 7, d, StrictHead[1..]);
    LitAtStart(s, "il y a ", true);
    MatchTokensCons(s, 0, StrictHead, true, 7, 8 + d, [s[7..7 + d]]);
  }

  lemma IlYMatches(s: string)
    requires |s| >= 5 && s[..2] == "il" && s[3] == 'y'
    requires Run(s, 2, Space) == 1 && Run(s, 4, Space) == 1
    ensures MatchTokens(s, 0, LooseHeadIlY, true) == Some((5, []))
  {
    var ts := LooseHeadIlY;
    assert ts[3..][1..] == [];
    MatchTokensCons(s, 4, ts[3..], true, 1, 5, []);
    assert s[3..4] == "y";
    MatchTokensCons(s, 3, ts[2..], true, 1, 5, []);
    MatchTokensCons(s, 2, ts[1..], true, 1, 5, []);
    LitAtStart(s, "il", true);
    MatchTokensCons(s, 0, ts, true, 2, 5, []);
  }

  lemma ACountMatches(s: string, d: nat)
    requires |s| >= 8 + d && s[5] == 'a'
    requires Run(s, 6, Space) == 1 && Run(s, 7, Digit) == d >= 1 && Run(s, 7 + d, Space) == 1
    ensures MatchTokens(s, 5, LooseHeadACount, true) == Some((8 + d, [s[7..7 + d]]))
  {
    var ts := LooseHeadACount;
    var tail, rest := ts[1..], ts[2..];
    var g := [s[7..7 + d]];
    assert tail[0] == Spaces(true) && tail[1..] == rest;
    assert MatchTokens(s, 6, tail, true) == Some((8 + d, g)) by {
      CountAfter(s, 7, d, rest);
      MatchTokensCons(s, 6, tail, true, 1, 8 + d, g);
    }
    assert Step(s, 5, ts[0], true) == Some(1) by {
      assert s[5..6] == "a";
    }
    MatchTokensCons(s, 5, ts, true, 1, 8 + d, g);
  }

  /** `\d+\s*` over a run of digits followed by one space. */
  lemma CountAfter(s: string, i: nat, d: nat, ts: seq<Token>)
    requires ts == [Digits(1, 0), Spaces(false)]
    requires i + d + 1 <= |s| && Run(s, i, Digit) == d >= 1 && Run(s, i + d, Space) == 1
    ensures MatchTokens(s, i, ts, true) == Some((i + d + 1, [s[i..i + d]]))
  {
    assert ts[1..][1..] == [];
    MatchTokensCons(s, i + d, ts[1..], true, 1, i + d + 1, []);
    assert [s[i..i + d]] + [] == [s[i..i + d]];
    MatchTokensCons(s, i, ts, true, d, i + d + 1, []);
  }

  /** In a relative text, a phrase for `unit` matches exactly when the text's
      word begins with `unit`, and then N is its count; it matches nowhere
      else. */
  lemma RelativePhraseCount(n: nat, word: string, unit: string, loose: bool)
    requires IsUnitWord(word) && unit in ["jour", "semaine", "mois", "an"]
    ensures PhraseCount(RelativeText(n, word), unit, loose)
              == if StartsWith(word, unit) then Some(n) else None
  {
    var s, D := RelativeText(n, word), NatToString(n);
    RelativeTextLayout(n, word);
    RelativeTextChars(n, word);
    LaidOutPhraseCount(s, D, word, unit, loose);
  }

  lemma LaidOutPhraseCount(s: string, D: string, word: string, unit: string, loose: bool)
    requires IsUnitWord(word) && unit in ["jour", "semaine", "mois", "an"]
    requires |s| == 8 + |D| + |word| && D != [] && AllDigits(D)
    requires s[..7] == "il y a " && s[7..7 + |D|] == D && s[7 + |D|] == ' ' && s[8 + |D|..] == word
    requires forall k :: 2 <= k < |s| ==> LowerChar(s[k]) != 'l'
    ensures PhraseCount(s, unit, loose) == if StartsWith(word, unit) then Some(DigitsValue(D)) else None
  {
    assert s[8 + |D|] == word[0];
    HeadMatchesLaidOut(s, D, loose);
    var e := 8 + |D|;
    UnitAt(s, e, word, unit);
    PhraseCountFromHead(s, e, D, unit, loose);
  }

  /** The unit word at `e` is `unit` exactly when `word` starts with it. */
  lemma UnitAt(s: string, e: nat, word: string, unit: string)
    requires e <= |s| && s[e..] == word && IsUnitWord(word) && unit in ["jour", "semaine", "mois", "an"]
    ensures LitAt(s, e, unit, true) <==> StartsWith(word, unit)
  {
    UnitInitials(word, unit);
    if StartsWith(word, unit) {
      assert s[e..e + |unit|] == unit;
    }
    if LitAt(s, e, unit, true) {
      assert s[e..e + |unit|][0] == word[0];
      assert 'a' <= word[0] <= 'z' && 'a' <= unit[0] <= 'z';
    }
  }

  /** The unit words are told apart by their first letter. */
  lemma UnitInitials(word: string, unit: string)
    requires IsUnitWord(word) && unit in ["jour", "semaine", "mois", "an"]
    ensures StartsWith(word, unit) <==> word[0] == unit[0]
  {
    if word[0] == unit[0] {
      if unit == "jour" {
        assert word[..4] == "jour";
      } else if unit == "semaine" {
        assert word[..7] == "semaine";
      } else if unit == "mois" {
        assert word == "mois";
      } else {
        assert word[..2] == "an";
      }
    }
  }

  /** The phrase count of a text whose head matches once at the start and has
      no other "il". */
  lemma PhraseCountFromHead(s: string, e: nat, D: string, unit: string, loose: bool)
    requires e <= |s| && MatchTokens(s, 0, RelativeHead(loose), true) == Some((e, [D]))
    requires forall k :: 2 <= k < |s| ==> LowerChar(s[k]) != 'l'
    ensures PhraseCount(s, unit, loose) == if LitAt(s, e, unit, true) then Some(DigitsValue(D)) else None
  {
    if LitAt(s, e, unit, true) {
      PhraseAtStart(s, e, D, unit, loose);
    } else {
      NoPhraseAtStart(s, e, D, unit, loose);
      NoPhraseAfterStart(s, unit, loose);
    }
  }

  lemma PhraseAtStart(s: string, e: nat, D: string, unit: string, loose: bool)
    requires e <= |s| && MatchTokens(s, 0, RelativeHead(loose), true) == Some((e, [D]))
    requires LitAt(s, e, unit, true)
    ensures PhraseCount(s, unit, loose) == Some(DigitsValue(D))
  {
    PhraseMatchesAtStart(s, e, D, RelativeHead(loose), unit);
    SearchAtStart(s, RelativePhrase(unit, loose));
  }

  /** A head followed by the unit word matches where the head does, with the
      head's captures. */
  lemma PhraseMatchesAtStart(s: string, e: nat, D: string, head: seq<Token>, unit: string)
    requires e <= |s| && MatchTokens(s, 0, head, true) == Some((e, [D]))
    requires LitAt(s, e, unit, true)
    ensures MatchTokens(s, 0, head + [Lit(unit)], true) == Some((e + |unit|, [D]))
  {
    assert [Lit(unit)][1..] == [];
    MatchTokensCons(s, e, [Lit(unit)], true, |unit|, e + |unit|, []);
    MatchTokensAppend(s, 0, head, [Lit(unit)], true, e, e + |unit|, [D], []);
    assert [D] + [] == [D];
  }

  lemma NoPhraseAtStart(s: string, e: nat, D: string, unit: string, loose: bool)
    requires e <= |s| && MatchTokens(s, 0, RelativeHead(loose), true) == Some((e, [D]))
    requires !LitAt(s, e, unit, true)
    ensures !MatchesAt(s, 0, RelativePhrase(unit, loose))
  {
    if MatchesAt(s, 0, RelativePhrase(unit, loose)) {
      var m, g1, g2 := MatchTokensSplit(s, 0, RelativeHead(loose), [Lit(unit)], true);
      assert false;
    }
  }

  lemma NoPhraseAfterStart(s: string, unit: string, loose: bool)
    requires forall k :: 2 <= k < |s| ==> LowerChar(s[k]) != 'l'
    ensures forall j :: 1 <= j <= |s| ==> !MatchesAt(s, j, RelativePhrase(unit, loose))
  {
    forall j | 1 <= j <= |s|
      ensures !MatchesAt(s, j, RelativePhrase(unit, loose))
    {
      if MatchesAt(s, j, RelativePhrase(unit, loose)) {
        PhraseStartsWithIl(s, j, unit, loose);
        assert false;
      }
    }
  }

  /** Every relative phrase begins with "il". */
  lemma PhraseStartsWithIl(s: string, j: nat, unit: string, loose: bool)
    requires MatchesAt(s, j, RelativePhrase(unit, loose))
    ensures j + 2 <= |s| && LowerChar(s[j + 1]) == 'l'
  {
    var p := RelativePhrase(unit, loose);
    assert p.tokens[0] == if loose then Lit("il") else Lit("il y a ");
    MatchNeedsLeadingLit(s, j, p);
    var lit := p.tokens[0].text;
    assert LowerChar(s[j..j + |lit|][1]) == LowerChar(lit[1]);
  }

  /** The cascade on a relative text decides by its unit word. */
  lemma RelativeResolves(n: nat, word: string, now: int, loose: bool)
    requires IsUnitWord(word)
    ensures var r := ResolveRelative(RelativeText(n, word), now, loose);
            && (word in ["jour", "jours"] ==> r == Some(Epoch(now - n * DayMs)))
            && (word in ["semaine", "semaines"] ==> r == Some(Epoch(now - 7 * n * DayMs)))
            && (word == "mois" ==> r == Some(MonthsBefore(now, n)))
            && (word in ["an", "ans"] ==> r == Some(YearsBefore(now, n)))
  {
    if word in ["jour", "jours"] {
      assert word[..4] == "jour";
      RelativePhraseCount(n, word, "jour", loose);
    } else if word in ["semaine", "semaines"] {
      ResolvesWeeks(n, word, now, loose);
    } else if word == "mois" {
      ResolvesMonths(n, now, loose);
    } else {
      ResolvesYears(n, word, now, loose);
    }
  }

  lemma ResolvesWeeks(n: nat, word: string, now: int, loose: bool)
    requires word in ["semaine", "semaines"]
    ensures ResolveRelative(RelativeText(n, word), now, loose) == Some(Epoch(now - 7 * n * DayMs))
  {
    WeeksNotDays(n, word, loose);
    WeeksCounted(n, word, loose);
  }

  lemma WeeksNotDays(n: nat, word: string, loose: bool)
    requires word in ["semaine", "semaines"]
    ensures PhraseCount(RelativeText(n, word), "jour", loose).None?
  {
    assert word[0] != "jour"[0];
    RelativePhraseCount(n, word, "jour", loose);
  }

  lemma WeeksCounted(n: nat, word: string, loose: bool)
    requires word in ["semaine", "semaines"]
    ensures PhraseCount(RelativeText(n, word), "semaine", loose) == Some(n)
  {
    assert word[..7] == "semaine";
    RelativePhraseCount(n, word, "semaine", loose);
  }

  lemma ResolvesMonths(n: nat, now: int, loose: bool)
    ensures ResolveRelative(RelativeText(n, "mois"), now, loose) == Some(MonthsBefore(now, n))
  {
    var word := "mois";
    assert word[..4] == "mois";
    RelativePhraseCount(n, word, "jour", loose);
    RelativePhraseCount(n, word, "semaine", loose);
    RelativePhraseCount(n, word, "mois", loose);
  }

  lemma ResolvesYears(n: nat, word: string, now: int, loose: bool)
    requires word in ["an", "ans"]
    ensures ResolveRelative(RelativeText(n, word), now, loose) == Some(YearsBefore(now, n))
  {
    assert word[0] == 'a' && word[..2] == "an";
    RelativePhraseCount(n, word, "jour", loose);
    RelativePhraseCount(n, word, "semaine", loose);
    RelativePhraseCount(n, word, "mois", loose);
    RelativePhraseCount(n, word, "an", loose);
  }

  /** Round trip of the relative phrases: the scraper's recogniser and the
      front end's cascade read back every "il y a N <unit>" text as N days,
      7N days, N months or N years before now. */
  lemma RelativeRoundTrip(n: nat, word: string, now: int)
    requires IsUnitWord(word)
    ensures var s := RelativeText(n, word);
            && (word in ["jour", "jours"] ==> ParseRelativeDate(s, now) == Some(Epoch(now - n * DayMs)))
            && (word in ["semaine", "semaines"] ==> ParseRelativeDate(s, now) == Some(Epoch(now - 7 * n * DayMs)))
            && (word == "mois" ==> ParseRelativeDate(s, now) == Some(MonthsBefore(now, n)))
            && (word in ["an", "ans"] ==> ParseRelativeDate(s, now) == Some(YearsBefore(now, n)))
            && ResolveRelative(s, now, false) == ParseRelativeDate(s, now)
  {
    var s := RelativeText(n, word);
    RelativeTextChars(n, word);
    LowerOfLowerCase(s);
    TrimUnpadded(s);
    RelativeResolves(n, word, now, true);
    RelativeResolves(n, word, now, false);
  }

  /** A text with no "l" after its first character holds no relative phrase. */
  lemma NoPhraseWithoutL(t: string, loose: bool)
    requires forall k :: 1 <= k < |t| ==> LowerChar(t[k]) != 'l'
    ensures NoPhrase(t, loose)
  {
    NoPhraseForWithoutL(t, "jour", loose);
    NoPhraseForWithoutL(t, "semaine", loose);
    NoPhraseForWithoutL(t, "mois", loose);
    NoPhraseForWithoutL(t, "an", loose);
  }

  lemma NoPhraseForWithoutL(t: string, unit: string, loose: bool)
    requires forall k :: 1 <= k < |t| ==> LowerChar(t[k]) != 'l'
    ensures PhraseCount(t, unit, loose).None?
  {
    forall j | 0 <= j <= |t|
      ensures !MatchesAt(t, j, RelativePhrase(unit, loose))
    {
      if MatchesAt(t, j, RelativePhrase(unit, loose)) {
        PhraseStartsWithIl(t, j, unit, loose);
      }
    }
  }

  /** The keyword "aujourd'hui" is now. */
  lemma TodayResolves(now: int, loose: bool)
    ensures ResolveRelative("aujourd'hui", now, loose) == Some(Epoch(now))
  {
    var today := "aujourd'hui";
    assert StartsWith(today[0..], "aujourd");
    assert forall k :: 1 <= k < |today| ==> LowerChar(today[k]) != 'l';
    TodayKeyword(today, now, loose);
  }

  lemma TodayKeyword(t: string, now: int, loose: bool)
    requires Contains(t, "aujourd")
    requires forall k :: 1 <= k < |t| ==> LowerChar(t[k]) != 'l'
    ensures ResolveRelative(t, now, loose) == Some(Epoch(now))
  {
    NoPhraseWithoutL(t, loose);
  }

  /** The keyword "hier" is one day before now. */
  lemma YesterdayResolves(now: int, loose: bool)
    ensures ResolveRelative("hier", now, loose) == Some(Epoch(now - DayMs))
  {
    var yesterday := "hier";
    assert StartsWith(yesterday[0..], "hier");
    assert yesterday[0] == 'h' && yesterday[1] == 'i' && yesterday[2] == 'e' && yesterday[3] == 'r';
    YesterdayKeyword(yesterday, now, loose);
  }

  /** A text holding "hier" but neither an "a" nor an "l" is one day before
      now. */
  lemma YesterdayKeyword(t: string, now: int, loose: bool)
    requires Contains(t, "hier")
    requires forall k :: 0 <= k < |t| ==> t[k] != 'a' && LowerChar(t[k]) != 'l'
    ensures ResolveRelative(t, now, loose) == Some(Epoch(now - DayMs))
  {
    NoPhraseWithoutL(t, loose);
    NotContainsWithoutInitial(t, "aujourd");
    NotContainsWithoutInitial(t, "auj.");
  }

  /** The scraper reads "Hier" whatever its capitalisation. */
  lemma CapitalisedYesterday(now: int)
    ensures ParseRelativeDate("Hier", now) == Some(Epoch(now - DayMs))
  {
    var yesterday := "hier";
    assert Lower("Hier") == yesterday;
    TrimUnpadded(yesterday);
    YesterdayResolves(now, true);
  }
}
