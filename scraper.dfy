/** The SensCritique review scraper: the dates found around a review, the
    three passes over the raw page, the pass over the page's review
    elements, how their results are merged, and the checks on the profile's
    age and statistics. The regular-expression matches that locate a review
    in the page (its title, content, link and rating) are inputs; the date
    recognisers are modelled with `Pattern`. */
module Scraper {
  import opened Wrappers
  import opened Text
  import opened Pattern
  import opened FrenchDates

  const SiteOrigin := "https://www.senscritique.com"

  // ---------------------------------------------------------------------------
  // Dates around a review

  /** The alternatives of the unit group in the order the scraper's pattern
      lists them: each singular before its plural. */
  const UnitsAsWritten: seq<string> := ["jour", "jours", "semaine", "semaines", "mois", "an", "ans"]

  /** The same alternatives with each plural before its singular, so that the
      whole phrase is taken. */
  const UnitsLongestFirst: seq<string> := ["jours", "jour", "semaines", "semaine", "mois", "ans", "an"]

  /** `il\s+y\s+a\s+(\d+)\s*(<units>)`, case-insensitive. */
  function PhrasePattern(units: seq<string>): Pattern
  {
    Pattern(LooseHeadIlY + LooseHeadACount + [OneOf(units)], true)
  }

  /** The text of the first relative phrase of `text` under the given unit
      alternatives, trimmed. */
  function FindPhraseWith(text: string, units: seq<string>): (r: Option<string>)
    ensures r.None? <==> Search(text, PhrasePattern(units)).None?
    ensures r.Some? ==> r.value == Trim(Matched(text, Search(text, PhrasePattern(units)).value))
  {
    match Search(text, PhrasePattern(units))
    case Some(m) => Some(Trim(Matched(text, m)))
    case None => None
  }

  /** The phrase as the scraper's pattern takes it. */
  function FindPhraseAsWritten(text: string): Option<string>
  {
    FindPhraseWith(text, UnitsAsWritten)
  }

  /** The whole phrase, as the scraper means to take it ("get the whole
      phrase"). The rest of the model uses this one. */
  function FindPhrase(text: string): Option<string>
  {
    FindPhraseWith(text, UnitsLongestFirst)
  }

  /** `datetime=["']([^"']+)["']`, case-insensitive. */
  const DatetimePattern := Pattern([Lit("datetime="), Quote, NonQuotes, Quote], true)

  /** The value of the first `datetime` attribute of `html`, kept only when it
      starts with YYYY-MM-DD; a later attribute is never looked at. */
  function FindIso(html: string): (r: Option<string>)
    ensures r.Some? ==> IsIsoDatePrefix(r.value)
    ensures r.Some? ==> Search(html, DatetimePattern).Some? && r.value == Search(html, DatetimePattern).value.groups[0]
    ensures Search(html, DatetimePattern).None? ==> r.None?
  {
    match Search(html, DatetimePattern)
    case Some(m) => if IsIsoDatePrefix(m.groups[0]) then Some(m.groups[0]) else None
    case None => None
  }

  /** The raw date text and the ISO date found for a review. */
  datatype FoundDate = FoundDate(text: Option<string>, iso: Option<string>)

  /** A literal found at `e` when the text there is that literal. */
  lemma LitAtSelf(s: string, e: nat, w: string)
    requires e + |w| <= |s| && s[e..e + |w|] == w
    ensures LitAt(s, e, w, true)
  {
  }

  /** A literal is not found at `e` when its first letter differs. */
  lemma NotLitAtInitial(s: string, e: nat, w: string)
    requires e < |s| && w != [] && LowerChar(s[e]) != LowerChar(w[0])
    ensures !LitAt(s, e, w, true)
  {
  }

  /** The first alternative found is the first one whose literal is at `e`. */
  lemma {:induction false} FirstWordAtIndex(s: string, e: nat, words: seq<string>, k: nat)
    requires k < |words| && LitAt(s, e, words[k], true)
    requires forall j :: 0 <= j < k ==> !LitAt(s, e, words[j], true)
    ensures FirstWordAt(s, e, words, true) == Some(words[k])
    decreases k
  {
    if k > 0 {
      assert words[1..][k - 1] == words[k];
      FirstWordAtIndex(s, e, words[1..], k - 1);
    }
  }

  /** With each plural first, the alternative found at a unit word is that
      whole word. */
  lemma UnitWordFound(s: string, e: nat, word: string)
    requires e <= |s| && s[e..] == word && IsUnitWord(word)
    ensures FirstWordAt(s, e, UnitsLongestFirst, true) == Some(word)
  {
    assert |s| == e + |word| && s[e] == word[0];
    assert s[e..e + |word|] == word;
    LitAtSelf(s, e, word);
    if word[0] == 'j' {
      FirstWordAtIndex(s, e, UnitsLongestFirst, if word == "jours" then 0 else 1);
    } else if word[0] == 's' {
      SemaineFound(s, e, word);
    } else if word[0] == 'm' {
      MoisFound(s, e);
    } else {
      AnFound(s, e, word);
    }
  }

  lemma SemaineFound(s: string, e: nat, word: string)
    requires e < |s| && s[e] == 's' && word in ["semaines", "semaine"] && |s| == e + |word|
    requires LitAt(s, e, word, true)
    ensures FirstWordAt(s, e, UnitsLongestFirst, true) == Some(word)
  {
    var L := UnitsLongestFirst;
    assert L[0] == "jours" && L[1] == "jour" && L[2] == "semaines" && L[3] == "semaine";
    NotLitAtInitial(s, e, "jours");
    NotLitAtInitial(s, e, "jour");
    FirstWordAtIndex(s, e, L, if word == "semaines" then 2 else 3);
  }

  lemma MoisFound(s: string, e: nat)
    requires e < |s| && s[e] == 'm' && LitAt(s, e, "mois", true)
    ensures FirstWordAt(s, e, UnitsLongestFirst, true) == Some("mois")
  {
    var L := UnitsLongestFirst;
    assert L[0] == "jours" && L[1] == "jour" && L[2] == "semaines" && L[3] == "semaine" && L[4] == "mois";
    NotLitAtInitial(s, e, "jours");
    NotLitAtInitial(s, e, "jour");
    NotLitAtInitial(s, e, "semaines");
    NotLitAtInitial(s, e, "semaine");
    FirstWordAtIndex(s, e, L, 4);
  }

  lemma AnFound(s: string, e: nat, word: string)
    requires e < |s| && s[e] == 'a' && word in ["ans", "an"] && |s| == e + |word|
    requires LitAt(s, e, word, true)
    ensures FirstWordAt(s, e, UnitsLongestFirst, true) == Some(word)
  {
    var L := UnitsLongestFirst;
    assert L[0] == "jours" && L[1] == "jour" && L[2] == "semaines" && L[3] == "semaine";
    assert L[4] == "mois" && L[5] == "ans" && L[6] == "an";
    NotLitAtInitial(s, e, "jours");
    NotLitAtInitial(s, e, "jour");
    NotLitAtInitial(s, e, "semaines");
    NotLitAtInitial(s, e, "semaine");
    NotLitAtInitial(s, e, "mois");
    FirstWordAtIndex(s, e, L, if word == "ans" then 5 else 6);
  }

  /** The phrase pattern matches a relative text from its start to its end
      when the unit alternative found is the whole unit word. */
  lemma PhraseMatchesWhole(n: nat, word: string, units: seq<string>, found: string)
    requires IsUnitWord(word)
    requires var s := RelativeText(n, word);
             FirstWordAt(s, 8 + |NatToString(n)|, units, true) == Some(found)
    ensures var s := RelativeText(n, word);
            && Search(s, PhrasePattern(units)).Some?
            && Search(s, PhrasePattern(units)).value.start == 0
            && Search(s, PhrasePattern(units)).value.end == 8 + |NatToString(n)| + |found|
  {
    var s, D := RelativeText(n, word), NatToString(n);
    var e := 8 + |D|;
    RelativeTextLayout(n, word);
    assert !IsSpace(word[0]) by { UnitWordLetters(word); }
    assert s[e] == word[0];
    HeadMatchesLaidOut(s, D, true);
    assert RelativeHead(true) == LooseHeadIlY + LooseHeadACount;
    HeadThenUnit(s, e, D, units, found);
  }

  /** The phrase pattern matches from the start of a text whose loose head
      ends at `e` where a unit alternative is found. */
  lemma HeadThenUnit(s: string, e: nat, D: string, units: seq<string>, found: string)
    requires e <= |s|
    requires MatchTokens(s, 0, LooseHeadIlY + LooseHeadACount, true) == Some((e, [D]))
    requires FirstWordAt(s, e, units, true) == Some(found)
    ensures && Search(s, PhrasePattern(units)).Some?
            && Search(s, PhrasePattern(units)).value.start == 0
            && Search(s, PhrasePattern(units)).value.end == e + |found|
  {
    MatchThenOneOf(s, 0, LooseHeadIlY + LooseHeadACount, units, true, e, [D], found);
    SearchAtStart(s, PhrasePattern(units));
  }

  /** The phrase found in a relative text, as the rest of the model takes it,
      is the whole text. */
  lemma PhraseFoundWhole(n: nat, word: string)
    requires IsUnitWord(word)
    ensures FindPhrase(RelativeText(n, word)) == Some(RelativeText(n, word))
  {
    var s, D := RelativeText(n, word), NatToString(n);
    var m := Search(s, PhrasePattern(UnitsLongestFirst));
    assert m.Some? && m.value.start == 0 && m.value.end == |s| by {
      RelativeTextLayout(n, word);
      UnitWordFound(s, 8 + |D|, word);
      PhraseMatchesWhole(n, word, UnitsLongestFirst, word);
    }
    assert s != [] && !IsSpace(s[0]) && !IsSpace(s[|s| - 1]) by {
      RelativeTextChars(n, word);
    }
    FoundFromStart(s, UnitsLongestFirst, |s|);
  }

  /** A match from the start of a text with no white space at its ends gives
      the text up to the match's end. */
  lemma FoundFromStart(s: string, units: seq<string>, end: nat)
    requires Search(s, PhrasePattern(units)).Some?
    requires Search(s, PhrasePattern(units)).value.start == 0 && Search(s, PhrasePattern(units)).value.end == end
    requires end <= |s| && (end == 0 || (!IsSpace(s[0]) && !IsSpace(s[end - 1])))
    ensures FindPhraseWith(s, units) == Some(s[..end])
    ensures end == |s| ==> FindPhraseWith(s, units) == Some(s)
  {
    assert s[0..end] == s[..end];
    TrimUnpadded(s[..end]);
    if end == |s| {
      assert s[..end] == s;
    }
  }

  /** With each singular first, the phrase taken from "il y a N jours" stops
      before the plural "s". */
  lemma AsWrittenDropsPlural(n: nat)
    ensures FindPhraseAsWritten(RelativeText(n, "jours")) == Some(RelativeText(n, "jour"))
  {
    var s, t := RelativeText(n, "jours"), RelativeText(n, "jour");
    var e := 8 + |NatToString(n)|;
    PluralLayout(n);
    assert FirstWordAt(s, e, UnitsAsWritten, true) == Some("jour") by {
      LitAtSelf(s, e, "jour");
    }
    PhraseMatchesWhole(n, "jours", UnitsAsWritten, "jour");
    assert !IsSpace(s[0]) && !IsSpace(s[e + 3]) by {
      RelativeTextChars(n, "jour");
    }
    FoundFromStart(s, UnitsAsWritten, e + 4);
  }

  /** "il y a N jours" is "il y a N jour" and an "s". */
  lemma PluralLayout(n: nat)
    ensures var s, t, e := RelativeText(n, "jours"), RelativeText(n, "jour"), 8 + |NatToString(n)|;
            && |t| == e + 4 && |s| == e + 5 && s[..e + 4] == t && s[e..e + 4] == "jour"
            && s[0] == t[0] && s[e + 3] == t[e + 3]
  {
    var s, t, e := RelativeText(n, "jours"), RelativeText(n, "jour"), 8 + |NatToString(n)|;
    assert s == t + "s";
    RelativeTextLayout(n, "jour");
    assert s[e..e + 4] == t[e..];
  }

  /** The date near a review in the raw page: a relative phrase from the
      review's context, else from the whole page; and the first `datetime`
      attribute of the whole page, whatever the context. */
  function ExtractDateFromHtml(html: string, context: string): (r: FoundDate)
    ensures FindPhrase(context).Some? ==> r.text == FindPhrase(context)
    ensures FindPhrase(context).None? ==> r.text == FindPhrase(html)
    ensures r.iso == FindIso(html)
    ensures r.iso.Some? ==> IsIsoDatePrefix(r.iso.value)
  {
    NoMatchInEmpty(PhrasePattern(UnitsLongestFirst), "il");
    NoMatchInEmpty(DatetimePattern, "datetime=");
    var fromContext := if context != [] then FindPhrase(context) else None;
    var text := if fromContext.Some? then fromContext else if html != [] then FindPhrase(html) else None;
    var iso := if html != [] then FindIso(html) else None;
    FoundDate(text, iso)
  }

  /** Every review of a page gets the page's first ISO `datetime`, whatever
      its own context. */
  lemma IsoIgnoresContext(html: string, context1: string, context2: string)
    ensures ExtractDateFromHtml(html, context1).iso == ExtractDateFromHtml(html, context2).iso
  {
  }

  /** What the element extractor reads from a review element: the text of its
      paragraphs and of its spans in document order, the `datetime` attribute
      of its first `time[datetime]` element (None when there is none), and
      its HTML. */
  datatype Element = Element(paragraphs: seq<string>, spans: seq<string>, timeDatetime: Option<string>, outerHtml: string)

  /** The phrase of a text, once trimmed. */
  function PhraseOf(text: string): Option<string>
  {
    FindPhrase(Trim(text))
  }

  /** The index of the first element that `find` finds something in, or
      `|xs|`. */
  function FirstFoundIndex<T, U>(xs: seq<T>, find: T -> Option<U>): (r: nat)
    ensures r <= |xs|
    ensures r < |xs| ==> find(xs[r]).Some?
    ensures forall j :: 0 <= j < r ==> find(xs[j]).None?
  {
    if xs == [] then 0
    else if find(xs[0]).Some? then 0
    else
      var r := FirstFoundIndex(xs[1..], find);
      assert forall j :: 1 <= j < 1 + r ==> xs[j] == xs[1..][j - 1];
      1 + r
  }

  /** What `find` finds in the first element it finds something in. */
  function FirstFound<T, U>(xs: seq<T>, find: T -> Option<U>): (r: Option<U>)
    ensures r.None? <==> forall j :: 0 <= j < |xs| ==> find(xs[j]).None?
    ensures r.Some? ==> exists j :: 0 <= j < |xs| && r == find(xs[j])
  {
    var i := FirstFoundIndex(xs, find);
    if i < |xs| then find(xs[i]) else None
  }

  lemma FirstFoundAt<T, U>(xs: seq<T>, find: T -> Option<U>, i: nat)
    requires i <= |xs| && (i < |xs| ==> find(xs[i]).Some?)
    requires forall j :: 0 <= j < i ==> find(xs[j]).None?
    ensures FirstFoundIndex(xs, find) == i
  {
  }

  /** A loop over a list that stops at the first element `find` finds
      something in. */
  method FirstFoundLoop<T, U>(xs: seq<T>, find: T -> Option<U>) returns (r: Option<U>)
    ensures r == FirstFound(xs, find)
  {
    r := None;
    var i := 0;
    while i < |xs|
      invariant 0 <= i <= |xs|
      invariant forall j :: 0 <= j < i ==> find(xs[j]).None?
    {
      var found := find(xs[i]);
      if found.Some? {
        FirstFoundAt(xs, find, i);
        r := found;
        return;
      }
      i := i + 1;
    }
    FirstFoundAt(xs, find, |xs|);
  }

  /** The phrase of the first text, trimmed, that holds one. */
  function FirstPhrase(texts: seq<string>): Option<string>
  {
    FirstFound(texts, PhraseOf)
  }

  /** The ISO value of the `time` element, when it starts with YYYY-MM-DD. */
  function TimeIso(e: Element): (r: Option<string>)
    ensures r.Some? ==> IsIsoDatePrefix(r.value) && e.timeDatetime == r
  {
    match e.timeDatetime
    case Some(v) => if v != [] && IsIsoDatePrefix(v) then Some(v) else None
    case None => None
  }

  /** The date of a review element: a phrase from its paragraphs, else from
      its spans; the ISO date of its `time` element; and only when both are
      missing, the first `datetime` attribute and the first phrase of its
      HTML. */
  function ElementDate(e: Element): FoundDate
  {
    var text := if FirstPhrase(e.paragraphs).Some? then FirstPhrase(e.paragraphs) else FirstPhrase(e.spans);
    WithHtmlFallback(FoundDate(text, TimeIso(e)), e.outerHtml)
  }

  /** The last resort of the element extractor: when neither a phrase nor an
      ISO date was found, both are looked for in the element's HTML. */
  function WithHtmlFallback(found: FoundDate, html: string): (r: FoundDate)
    ensures found.text.Some? || found.iso.Some? ==> r == found
  {
    if found.text.None? && found.iso.None? then FoundDate(FindPhrase(html), FindIso(html)) else found
  }

  /** The element extractor: the paragraphs, then the spans, the `time`
      element, and the HTML as the last resort. */
  method ExtractDateFromElement(e: Element) returns (d: FoundDate)
    ensures d == ElementDate(e)
    ensures d.iso.Some? ==> IsIsoDatePrefix(d.iso.value)
    ensures FirstPhrase(e.paragraphs).Some? ==> d.text == FirstPhrase(e.paragraphs)
  {
    var text := FirstFoundLoop(e.paragraphs, PhraseOf);
    if text.None? {
      text := FirstFoundLoop(e.spans, PhraseOf);
    }
    var iso: Option<string> := None;
    if e.timeDatetime.Some? {
      iso := e.timeDatetime;
      if !(iso.value != [] && IsIsoDatePrefix(iso.value)) {
        iso := None;
      }
    }
    assert iso == TimeIso(e);
    d := WithHtmlFallback(FoundDate(text, iso), e.outerHtml);
  }

  // ---------------------------------------------------------------------------
  // Review records

  /** When a review was published: an ISO text kept verbatim, or an instant
      read from a French phrase. */
  datatype Stamp = IsoStamp(text: string) | ParsedStamp(at: Instant)

  /** A review as the scraper emits it. Its `date_raw` and `updated_at`
      fields are copies of `date` and `createdAt` and are not repeated here. */
  datatype Review = Review(
    title: string,
    content: string,
    date: Option<string>,
    createdAt: Option<Stamp>,
    url: Option<string>,
    rating: Option<nat>)

  const MaxContent: nat := 200
  const Ellipsis := "..."

  /** The first 200 characters, with "..." only when something was cut. */
  function Truncate(content: string): (r: string)
    ensures |r| <= MaxContent + |Ellipsis|
    ensures |content| <= MaxContent ==> r == content
    ensures |content| > MaxContent ==> |r| == MaxContent + 3 && r[..MaxContent] == content[..MaxContent] && r[MaxContent..] == Ellipsis
    ensures |r| >= |content| || |r| == MaxContent + 3
  {
    if |content| > MaxContent then content[..MaxContent] + Ellipsis else content
  }

  /** A truncated text keeps every text that is long enough to be a review
      long enough. */
  lemma TruncateKeepsLength(content: string)
    requires |content| > 20
    ensures 20 < |Truncate(content)| <= 203
  {
  }

  /** A candidate is emitted only with a title and more than 20 characters of
      content. */
  predicate Emittable(title: string, content: string)
  {
    title != [] && |content| > 20
  }

  /** What every emitted review satisfies. */
  predicate WellFormed(r: Review)
  {
    r.title != [] && 20 < |r.content| <= MaxContent + |Ellipsis| && r.date != Some([])
    && (r.createdAt.Some? && r.createdAt.value.IsoStamp? ==> IsIsoDatePrefix(r.createdAt.value.text))
  }

  /** An ISO value with the YYYY-MM-DD prefix once trimmed. */
  function CleanIso(iso: Option<string>): (r: Option<string>)
    ensures r.Some? ==> IsIsoDatePrefix(r.value) && iso.Some? && r.value == Trim(iso.value)
    ensures iso.Some? && IsIsoDatePrefix(Trim(iso.value)) ==> r.Some?
  {
    match iso
    case Some(v) => if Trim(v) != [] && IsIsoDatePrefix(Trim(v)) then Some(Trim(v)) else None
    case None => None
  }

  /** `le \d{1,2}\s+\w+\.?\s+\d{4}`, case-sensitive: the shape the raw-page
      passes test before the absolute-date parser. */
  const FrenchShapePattern := Pattern([Lit("le "), Digits(1, 2), Spaces(true), Word(AsciiWord), OptDot, Spaces(true), Digits(4, 4)], false)

  /** `created_at` in the raw-page passes: the ISO value when there is one;
      else a text holding "il y a" (case-sensitive) goes to the relative
      parser, a "le D mois YYYY" text to the absolute one, and in the third
      pass an ISO-prefixed text is kept as it is. */
  function PageStamp(d: FoundDate, now: int, isoTextFallback: bool): (r: Option<Stamp>)
    ensures CleanIso(d.iso).Some? ==> r == Some(IsoStamp(CleanIso(d.iso).value))
    ensures r.Some? && r.value.ParsedStamp? ==> CleanIso(d.iso).None? && d.text.Some?
    ensures r.Some? && r.value.IsoStamp? ==> IsIsoDatePrefix(r.value.text)
    ensures CleanIso(d.iso).None? && d.text.Some? && Contains(d.text.value, "il y a") ==>
              r == MapStamp(ParseRelativeDate(d.text.value, now))
    ensures (d.text.None? || d.text.value == []) && CleanIso(d.iso).None? ==> r.None?
    ensures CleanIso(d.iso).None? && d.text.Some? && !Contains(d.text.value, "il y a")
            && Search(d.text.value, FrenchShapePattern).Some? ==>
              r == MapStamp(ParseFrenchDate(d.text.value))
    ensures CleanIso(d.iso).None? && d.text.Some? && !Contains(d.text.value, "il y a")
            && Search(d.text.value, FrenchShapePattern).None? ==>
              r == (if isoTextFallback && IsIsoDatePrefix(d.text.value) then Some(IsoStamp(d.text.value)) else None)
  {
    if CleanIso(d.iso).Some? then Some(IsoStamp(CleanIso(d.iso).value))
    else if d.text.None? || d.text.value == [] then None
    else
      var text := d.text.value;
      if Contains(text, "il y a") then MapStamp(ParseRelativeDate(text, now))
      else if Search(text, FrenchShapePattern).Some? then MapStamp(ParseFrenchDate(text))
      else if isoTextFallback && IsIsoDatePrefix(text) then Some(IsoStamp(text))
      else None
  }

  function MapStamp(i: Option<Instant>): (r: Option<Stamp>)
    ensures r.Some? <==> i.Some?
    ensures r.Some? ==> r.value == ParsedStamp(i.value)
  {
    match i
    case Some(v) => Some(ParsedStamp(v))
    case None => None
  }

  /** The raw-page passes test for "il y a" case-sensitively, although the
      phrase was found ignoring case: a capitalised phrase is kept as the
      raw date but never read. */
  lemma CapitalisedPhraseUnread(now: int, isoTextFallback: bool)
    ensures PageStamp(FoundDate(Some("Il y a 3 jours"), None), now, isoTextFallback).None?
  {
    var t := "Il y a 3 jours";
    NotContainsWithoutInitial(t, "il y a");
    assert forall k :: 0 <= k < |t| - 1 ==> !(t[k] == 'l' && t[k + 1] == 'e');
    NoFrenchShape(t);
    assert !IsIsoDatePrefix(t);
  }

  /** A text in which "l" is never followed by "e" has no "le D mois YYYY". */
  lemma NoFrenchShape(t: string)
    requires forall k :: 0 <= k < |t| - 1 ==> !(t[k] == 'l' && t[k + 1] == 'e')
    ensures Search(t, FrenchShapePattern).None?
  {
    forall j | 0 <= j <= |t|
      ensures !MatchesAt(t, j, FrenchShapePattern)
    {
      if j + 3 <= |t| {
        assert t[j..j + 3][0] == t[j] && t[j..j + 3][1] == t[j + 1];
      }
      if MatchesAt(t, j, FrenchShapePattern) {
        MatchNeedsLeadingLit(t, j, FrenchShapePattern);
      }
    }
  }

  /** `created_at` in the element pass: the ISO value when there is one, else
      whatever the relative parser makes of the text. */
  function ElementStamp(d: FoundDate, now: int): (r: Option<Stamp>)
    ensures CleanIso(d.iso).Some? ==> r == Some(IsoStamp(CleanIso(d.iso).value))
    ensures CleanIso(d.iso).None? && d.text.Some? && d.text.value != [] ==>
              r == MapStamp(ParseRelativeDate(d.text.value, now))
    ensures r.Some? && r.value.IsoStamp? ==> IsIsoDatePrefix(r.value.text)
    ensures d.text.None? && CleanIso(d.iso).None? ==> r.None?
  {
    if CleanIso(d.iso).Some? then Some(IsoStamp(CleanIso(d.iso).value))
    else if d.text.None? || d.text.value == [] then None
    else MapStamp(ParseRelativeDate(d.text.value, now))
  }

  /** `date`: the raw text, or null when it is empty. */
  function RawDate(d: FoundDate): (r: Option<string>)
    ensures r != Some([])
    ensures d.text.Some? && d.text.value != [] ==> r == d.text
  {
    if d.text.Some? && d.text.value != [] then d.text else None
  }

  // ---------------------------------------------------------------------------
  // The first raw-page pass: "Critique de <title> par KiMi_" headers

  /** One header match of the first pass, with what the scraper reads around
      it: the 3000 characters after it, the window from 1000 before it to
      4000 after it, the capture of each of the three content patterns in
      that context (None when the pattern does not match), and the link and
      rating found near it. */
  datatype HeaderMatch = HeaderMatch(
    title: string,
    context: string,
    extendedContext: string,
    contentCaptures: seq<Option<string>>,
    link: Option<string>,
    rating: Option<nat>)

  /** A content capture that is longer than 20 characters once trimmed. */
  predicate LongEnough(capture: Option<string>)
  {
    capture.Some? && |Trim(capture.value)| > 20
  }

  /** The index of the first capture that is long enough, or `|captures|`. */
  function ChosenIndex(captures: seq<Option<string>>): (r: nat)
    ensures r <= |captures|
    ensures r < |captures| ==> LongEnough(captures[r])
    ensures forall j :: 0 <= j < r ==> !LongEnough(captures[j])
  {
    ChosenIndexFrom(captures, 0)
  }

  /** The index of the first capture at or after `from` that is long enough. */
  function ChosenIndexFrom(captures: seq<Option<string>>, from: nat): (r: nat)
    requires from <= |captures|
    ensures from <= r <= |captures|
    ensures r < |captures| ==> LongEnough(captures[r])
    ensures forall j :: from <= j < r ==> !LongEnough(captures[j])
    decreases |captures| - from
  {
    if from == |captures| || LongEnough(captures[from]) then from
    else ChosenIndexFrom(captures, from + 1)
  }

  /** The first capture that is long enough, trimmed. */
  function ChosenContent(captures: seq<Option<string>>): (r: Option<string>)
    ensures r.Some? ==> |r.value| > 20
    ensures r.None? <==> forall i :: 0 <= i < |captures| ==> !LongEnough(captures[i])
    ensures r.Some? ==> ChosenIndex(captures) < |captures| && r.value == Trim(captures[ChosenIndex(captures)].value)
  {
    var i := ChosenIndex(captures);
    if i < |captures| then Some(Trim(captures[i].value)) else None
  }

  lemma ChosenAt(captures: seq<Option<string>>, i: nat)
    requires i < |captures| && LongEnough(captures[i])
    requires forall j :: 0 <= j < i ==> !LongEnough(captures[j])
    ensures ChosenIndex(captures) == i
  {
  }

  /** The loop over the content patterns, stopping at the first capture that
      is long enough. */
  method FirstContent(captures: seq<Option<string>>) returns (content: Option<string>)
    ensures content == ChosenContent(captures)
  {
    content := None;
    var i := 0;
    while i < |captures|
      invariant 0 <= i <= |captures|
      invariant forall j :: 0 <= j < i ==> !LongEnough(captures[j])
    {
      if LongEnough(captures[i]) {
        ChosenAt(captures, i);
        content := Some(Trim(captures[i].value));
        return;
      }
      i := i + 1;
    }
  }

  /** The absolute url of a review link found in the page: the site's
      origin in front of the path, and none without a link. */
  function SiteUrl(link: Option<string>): (u: Option<string>)
    ensures u.Some? <==> link.Some?
    ensures u.Some? ==> u.value == SiteOrigin + link.value
  {
    if link.Some? then Some(SiteOrigin + link.value) else None
  }

  /** The review the first pass builds from a header match, if any. */
  function HeaderReview(html: string, m: HeaderMatch, now: int): (r: Option<Review>)
    ensures r.Some? ==> WellFormed(r.value)
    ensures r.Some? ==> r.value.title == Trim(m.title) && ChosenContent(m.contentCaptures).Some?
                        && r.value.content == Truncate(ChosenContent(m.contentCaptures).value)
    ensures r.Some? <==> Trim(m.title) != [] && ChosenContent(m.contentCaptures).Some?
    ensures r.Some? ==>
              var d := ExtractDateFromHtml(html, if m.context != [] then m.context else m.extendedContext);
              r.value.date == RawDate(d) && r.value.createdAt == PageStamp(d, now, false)
              && r.value.url == SiteUrl(m.link) && r.value.rating == m.rating
  {
    var title := Trim(m.title);
    var content := ChosenContent(m.contentCaptures);
    if title == [] || content.None? then None
    else
      var d := ExtractDateFromHtml(html, if m.context != [] then m.context else m.extendedContext);
      TruncateKeepsLength(content.value);
      Some(Review(title, Truncate(content.value), RawDate(d), PageStamp(d, now, false), SiteUrl(m.link), m.rating))
  }

  /** The reviews of the first pass, in the order of the header matches. */
  function HeaderReviews(html: string, ms: seq<HeaderMatch>, now: int): (rs: seq<Review>)
    ensures |rs| <= |ms|
    ensures forall k :: 0 <= k < |rs| ==> WellFormed(rs[k])
  {
    if ms == [] then []
    else
      HeaderReviews(html, ms[..|ms| - 1], now) + AsSeq(HeaderReview(html, ms[|ms| - 1], now))
  }

  lemma HeaderReviewsSnoc(html: string, ms: seq<HeaderMatch>, i: nat, now: int)
    requires i < |ms|
    ensures HeaderReviews(html, ms[..i + 1], now) == HeaderReviews(html, ms[..i], now) + AsSeq(HeaderReview(html, ms[i], now))
  {
    assert ms[..i + 1][..i] == ms[..i];
  }

  method HeaderPass(html: string, ms: seq<HeaderMatch>, now: int) returns (reviews: seq<Review>)
    ensures reviews == HeaderReviews(html, ms, now)
  {
    reviews := [];
    var i := 0;
    while i < |ms|
      invariant 0 <= i <= |ms|
      invariant reviews == HeaderReviews(html, ms[..i], now)
    {
      HeaderReviewsSnoc(html, ms, i, now);
      var m := ms[i];
      var content := FirstContent(m.contentCaptures);
      var title := Trim(m.title);
      if title != [] && content.Some? && |content.value| > 20 {
        var d := ExtractDateFromHtml(html, if m.context != [] then m.context else m.extendedContext);
        var url := SiteUrl(m.link);
        reviews := reviews + [Review(title, Truncate(content.value), RawDate(d), PageStamp(d, now, false), url, m.rating)];
      }
      i := i + 1;
    }
    assert ms[..|ms|] == ms;
  }

  // ---------------------------------------------------------------------------
  // The second and third raw-page passes

  /** One match of the second pass's title-content-date pattern: its title
      and content captures, the window from 500 before it to 500 after it,
      and the link and rating found there. */
  datatype BlockMatch = BlockMatch(title: string, content: string, context: string, link: Option<string>, rating: Option<nat>)

  /** The second pass rejects titles that are site headings. */
  predicate IsSiteHeading(title: string, rejectReviewHeading: bool)
  {
    (rejectReviewHeading && Contains(title, "Critique de")) || Contains(title, "Sens Critique")
  }

  function BlockReview(html: string, m: BlockMatch, now: int, rejectReviewHeading: bool, isoTextFallback: bool): (r: Option<Review>)
    ensures r.Some? ==> WellFormed(r.value) && r.value.title == Trim(m.title)
    ensures r.Some? <==> Emittable(Trim(m.title), Trim(m.content)) && !IsSiteHeading(Trim(m.title), rejectReviewHeading)
  {
    var title := Trim(m.title);
    var content := Trim(m.content);
    if !Emittable(title, content) || IsSiteHeading(title, rejectReviewHeading) then None
    else
      var d := ExtractDateFromHtml(html, m.context);
      TruncateKeepsLength(content);
      Some(Review(title, Truncate(content), RawDate(d), PageStamp(d, now, isoTextFallback), SiteUrl(m.link), m.rating))
  }

  /** The fields of a block review: the truncated content, the date found
      in the window around the match, its stamp, the link and the rating. */
  lemma BlockReviewFields(html: string, m: BlockMatch, now: int, rejectReviewHeading: bool, isoTextFallback: bool)
    ensures var r := BlockReview(html, m, now, rejectReviewHeading, isoTextFallback);
            r.Some? ==>
              var d := ExtractDateFromHtml(html, m.context);
              r.value.content == Truncate(Trim(m.content)) && r.value.date == RawDate(d)
              && r.value.createdAt == PageStamp(d, now, isoTextFallback)
              && r.value.url == SiteUrl(m.link) && r.value.rating == m.rating
  {
  }

  /** A block review carries the rating of its match. */
  lemma BlockReviewRating(html: string, m: BlockMatch, now: int, rejectReviewHeading: bool, isoTextFallback: bool)
    ensures var r := BlockReview(html, m, now, rejectReviewHeading, isoTextFallback);
            r.Some? ==> r.value.rating == m.rating
  {
  }

  /** The third pass keeps no rating. */
  function Prepared(m: BlockMatch, second: bool): (r: BlockMatch)
    ensures !second ==> r.rating.None?
  {
    if second then m else m.(rating := None)
  }

  /** The review of an optional one, as a list. */
  function AsSeq(r: Option<Review>): (s: seq<Review>)
    ensures |s| <= 1 && (r.Some? <==> |s| == 1) && (r.Some? ==> s == [r.value])
  {
    if r.Some? then [r.value] else []
  }

  /** The reviews of the second pass (`rejectReviewHeading`, ratings kept)
      or of the third (no rating, ISO-prefixed text kept as a date). */
  function BlockReviews(html: string, ms: seq<BlockMatch>, now: int, second: bool): (rs: seq<Review>)
    ensures |rs| <= |ms|
    ensures forall k :: 0 <= k < |rs| ==> WellFormed(rs[k])
    ensures !second ==> forall k :: 0 <= k < |rs| ==> rs[k].rating.None?
  {
    if ms == [] then []
    else
      var front := BlockReviews(html, ms[..|ms| - 1], now, second);
      var last := AsSeq(BlockReview(html, Prepared(ms[|ms| - 1], second), now, second, !second));
      BlockReviewShape(html, ms[|ms| - 1], now, second);
      AppendShape(front, last, second);
      front + last
  }

  lemma AppendShape(front: seq<Review>, last: seq<Review>, second: bool)
    requires forall k :: 0 <= k < |front| ==> WellFormed(front[k]) && (!second ==> front[k].rating.None?)
    requires forall k :: 0 <= k < |last| ==> WellFormed(last[k]) && (!second ==> last[k].rating.None?)
    ensures forall k :: 0 <= k < |front + last| ==> WellFormed((front + last)[k]) && (!second ==> (front + last)[k].rating.None?)
  {
  }

  lemma BlockReviewShape(html: string, m: BlockMatch, now: int, second: bool)
    ensures var s := AsSeq(BlockReview(html, Prepared(m, second), now, second, !second));
            |s| <= 1 && forall k :: 0 <= k < |s| ==> WellFormed(s[k]) && (!second ==> s[k].rating.None?)
  {
    var p := Prepared(m, second);
    var r := BlockReview(html, p, now, second, !second);
    if r.Some? {
      BlockReviewRating(html, p, now, second, !second);
      var v := r.value;
      assert WellFormed(v);
      assert v.rating == p.rating;
      assert AsSeq(r) == [v];
    } else {
      assert AsSeq(r) == [];
    }
  }

  method BlockPass(html: string, ms: seq<BlockMatch>, now: int, second: bool) returns (reviews: seq<Review>)
    ensures reviews == BlockReviews(html, ms, now, second)
  {
    reviews := [];
    var i := 0;
    while i < |ms|
      invariant 0 <= i <= |ms|
      invariant reviews == BlockReviews(html, ms[..i], now, second)
    {
      BlockReviewsSnoc(html, ms, i, now, second);
      var r := BlockReview(html, Prepared(ms[i], second), now, second, !second);
      reviews := reviews + AsSeq(r);
      i := i + 1;
    }
    assert ms[..|ms|] == ms;
  }

  lemma BlockReviewsSnoc(html: string, ms: seq<BlockMatch>, i: nat, now: int, second: bool)
    requires i < |ms|
    ensures BlockReviews(html, ms[..i + 1], now, second)
              == BlockReviews(html, ms[..i], now, second) + AsSeq(BlockReview(html, Prepared(ms[i], second), now, second, !second))
  {
    assert ms[..i + 1][..i] == ms[..i];
  }

  /** The matches of the three raw-page passes over one page. */
  datatype PageMatches = PageMatches(headers: seq<HeaderMatch>, blocks: seq<BlockMatch>, simple: seq<BlockMatch>)

  /** The raw-page passes: each later pass runs only when the earlier ones
      found nothing. */
  function ReviewsFromHtml(html: string, pm: PageMatches, now: int): (rs: seq<Review>)
    ensures forall k :: 0 <= k < |rs| ==> WellFormed(rs[k])
    ensures HeaderReviews(html, pm.headers, now) != [] ==> rs == HeaderReviews(html, pm.headers, now)
    ensures (HeaderReviews(html, pm.headers, now) == [] && BlockReviews(html, pm.blocks, now, true) != []) ==>
              rs == BlockReviews(html, pm.blocks, now, true)
    ensures (HeaderReviews(html, pm.headers, now) == [] && BlockReviews(html, pm.blocks, now, true) == []) ==>
              rs == BlockReviews(html, pm.simple, now, false)
  {
    var first := HeaderReviews(html, pm.headers, now);
    if first != [] then first
    else
      var second := BlockReviews(html, pm.blocks, now, true);
      if second != [] then second
      else BlockReviews(html, pm.simple, now, false)
  }

  method ParseReviewsFromHtml(html: string, pm: PageMatches, now: int) returns (reviews: seq<Review>)
    ensures reviews == ReviewsFromHtml(html, pm, now)
  {
    reviews := HeaderPass(html, pm.headers, now);
    if |reviews| == 0 {
      reviews := BlockPass(html, pm.blocks, now, true);
    }
    if |reviews| == 0 {
      reviews := BlockPass(html, pm.simple, now, false);
    }
  }

  // ---------------------------------------------------------------------------
  // The element pass

  /** What the element pass reads from one review element: the text of its
      title element, of its content element and of its rating element (each
      None when the element is missing), the `href` of its link element, and
      the element itself for the date. */
  datatype Container = Container(
    title: Option<string>,
    content: Option<string>,
    link: Option<string>,
    ratingText: Option<string>,
    element: Element)

  /** `(\d+)`: a run of digits. */
  const DigitRun := Pattern([Digits(1, 0)], false)

  /** `(\d+)` matches exactly where a digit is, and captures the whole run. */
  lemma DigitRunAt(t: string, j: nat)
    requires j <= |t|
    ensures MatchesAt(t, j, DigitRun) <==> j < |t| && IsDigit(t[j])
    ensures j < |t| && IsDigit(t[j]) ==>
              MatchTokens(t, j, DigitRun.tokens, false) == Some((j + Run(t, j, Digit), [t[j..j + Run(t, j, Digit)]]))
  {
    var n := Run(t, j, Digit);
    assert Step(t, j, Digits(1, 0), false) == if n >= 1 then Some(n) else None;
    assert n >= 1 <==> j < |t| && IsDigit(t[j]);
    var ts := DigitRun.tokens;
    assert ts[1..] == [];
    if n >= 1 {
      assert MatchTokens(t, j + n, ts[1..], false) == Some((j + n, []));
      MatchTokensCons(t, j, ts, false, n, j + n, []);
      assert [t[j..j + n]] + [] == [t[j..j + n]];
    }
  }

  /** The first run of digits of the rating text, as a number. */
  function RatingOf(ratingText: Option<string>): (r: Option<nat>)
    ensures ratingText.None? ==> r.None?
    ensures ratingText.Some? ==> (r.Some? <==> exists i :: 0 <= i < |ratingText.value| && IsDigit(ratingText.value[i]))
  {
    match ratingText
    case None => None
    case Some(t) =>
      var m := Search(t, DigitRun);
      assert forall j :: 0 <= j <= |t| ==> (MatchesAt(t, j, DigitRun) <==> j < |t| && IsDigit(t[j])) by {
        forall j | 0 <= j <= |t| { DigitRunAt(t, j); }
      }
      match m
      case Some(m) => Some(DigitsValue(m.groups[0]))
      case None => None
  }

  /** The rating is the value of the run of digits that starts at the first
      digit of the text. */
  lemma RatingIsFirstRun(t: string, i: nat)
    requires i < |t| && IsDigit(t[i])
    requires forall j :: 0 <= j < i ==> !IsDigit(t[j])
    ensures RatingOf(Some(t)) == Some(DigitsValue(t[i..i + Run(t, i, Digit)]))
  {
    forall j | 0 <= j < i
      ensures !MatchesAt(t, j, DigitRun)
    {
      DigitRunAt(t, j);
    }
    DigitRunAt(t, i);
    assert MatchesAt(t, i, DigitRun);
    var m := Search(t, DigitRun).value;
    assert m.start == i;
  }

  /** The review the element pass builds from a container, given the date
      the element extractor found. A missing link gives an empty url. */
  function BuildElementReview(c: Container, d: FoundDate, now: int): (r: Option<Review>)
    ensures r.Some? ==> c.title.Some? && r.value.title == Trim(c.title.value)
    ensures r.Some? ==> r.value.url.Some? && (c.link.None? ==> r.value.url == Some([]))
    ensures r.Some? ==> r.value.createdAt == ElementStamp(d, now)
    ensures r.Some? <==> c.title.Some? && Emittable(Trim(c.title.value), Trim(c.content.GetOr([])))
  {
    if c.title.None? then None
    else
      var title := Trim(c.title.value);
      var content := Trim(c.content.GetOr([]));
      if !Emittable(title, content) then None
      else
        Some(Review(title, Truncate(content), RawDate(d), ElementStamp(d, now),
                    Some(if c.link.Some? then SiteOrigin + c.link.value else []), RatingOf(c.ratingText)))
  }

  /** The other fields of an element review: the truncated content, the
      raw date, the rating of the rating text and the site url of the link. */
  lemma BuildElementReviewFields(c: Container, d: FoundDate, now: int)
    ensures var r := BuildElementReview(c, d, now);
            r.Some? ==>
              && r.value.content == Truncate(Trim(c.content.GetOr([]))) && r.value.date == RawDate(d)
              && r.value.rating == RatingOf(c.ratingText)
              && (c.link.Some? ==> r.value.url == Some(SiteOrigin + c.link.value))
  {
  }

  function ElementReview(c: Container, now: int): Option<Review>
  {
    BuildElementReview(c, ElementDate(c.element), now)
  }

  lemma ElementReviewWellFormed(c: Container, now: int)
    ensures ElementReview(c, now).Some? ==> WellFormed(ElementReview(c, now).value)
  {
    if c.title.Some? {
      var content := Trim(c.content.GetOr([]));
      if |content| > 20 {
        TruncateKeepsLength(content);
      }
    }
  }

  /** The reviews of the element pass, in document order. */
  function ElementReviews(cs: seq<Container>, now: int): (rs: seq<Review>)
    ensures |rs| <= |cs|
  {
    if cs == [] then []
    else ElementReviews(cs[..|cs| - 1], now) + AsSeq(ElementReview(cs[|cs| - 1], now))
  }

  /** Every review of the element pass is well formed. */
  lemma {:induction false} ElementReviewsWellFormed(cs: seq<Container>, now: int)
    ensures forall k :: 0 <= k < |ElementReviews(cs, now)| ==> WellFormed(ElementReviews(cs, now)[k])
  {
    if cs != [] {
      var front := cs[..|cs| - 1];
      ElementReviewsWellFormed(front, now);
      ElementReviewWellFormed(cs[|cs| - 1], now);
      var rs, fs := ElementReviews(cs, now), ElementReviews(front, now);
      assert rs == fs + AsSeq(ElementReview(cs[|cs| - 1], now));
      forall k | 0 <= k < |rs|
        ensures WellFormed(rs[k])
      {
        if k >= |fs| {
          assert rs[k] == ElementReview(cs[|cs| - 1], now).value;
        } else {
          assert rs[k] == fs[k];
        }
      }
    }
  }

  lemma ElementReviewsSnoc(cs: seq<Container>, i: nat, now: int)
    requires i < |cs|
    ensures ElementReviews(cs[..i + 1], now) == ElementReviews(cs[..i], now) + AsSeq(ElementReview(cs[i], now))
  {
    assert cs[..i + 1][..i] == cs[..i];
  }

  /** One container of the element pass: the review built from it, if any,
      is appended. */
  lemma ElementPassStep(cs: seq<Container>, i: nat, now: int, r: Option<Review>)
    requires i < |cs| && r == ElementReview(cs[i], now)
    ensures ElementReviews(cs[..i + 1], now) == ElementReviews(cs[..i], now) + AsSeq(r)
  {
    ElementReviewsSnoc(cs, i, now);
  }

  method ElementPass(cs: seq<Container>, now: int) returns (reviews: seq<Review>)
    ensures reviews == ElementReviews(cs, now)
  {
    reviews := [];
    var i := 0;
    while i < |cs|
      invariant 0 <= i <= |cs|
      invariant reviews == ElementReviews(cs[..i], now)
    {
      var c := cs[i];
      var r: Option<Review> := None;
      if c.title.Some? {
        var d := ExtractDateFromElement(c.element);
        r := BuildElementReview(c, d, now);
      }
      ElementPassStep(cs, i, now, r);
      reviews := reviews + AsSeq(r);
      i := i + 1;
    }
    assert cs[..|cs|] == cs;
  }

  // ---------------------------------------------------------------------------
  // Merging the two sources

  /** `substring(0, 50)`. */
  function Head50(s: string): (r: string)
    ensures |r| <= 50 && |r| <= |s| && r == s[..|r|]
    ensures |s| >= 50 ==> |r| == 50
    ensures |s| < 50 ==> r == s
  {
    if |s| <= 50 then s else s[..50]
  }

  /** Two reviews are the same when their titles and the first 50 characters
      of their contents agree. */
  predicate SameReview(a: Review, b: Review)
  {
    a.title == b.title && Head50(a.content) == Head50(b.content)
  }

  predicate IsDuplicate(reviews: seq<Review>, r: Review)
  {
    exists i :: 0 <= i < |reviews| && SameReview(reviews[i], r)
  }

  /** `reviews` followed by each review of `extra` that is not the same as one
      already kept, checked against the growing list. */
  function Merged(reviews: seq<Review>, extra: seq<Review>): seq<Review>
  {
    if extra == [] then reviews
    else
      var m := Merged(reviews, extra[..|extra| - 1]);
      var x := extra[|extra| - 1];
      if IsDuplicate(m, x) then m else m + [x]
  }

  /** The merge loop. */
  method MergeReviews(reviews: seq<Review>, extra: seq<Review>) returns (merged: seq<Review>)
    ensures merged == Merged(reviews, extra)
    ensures |merged| >= |reviews| && merged[..|reviews|] == reviews
  {
    merged := reviews;
    var i := 0;
    while i < |extra|
      invariant 0 <= i <= |extra|
      invariant merged == Merged(reviews, extra[..i])
    {
      assert extra[..i + 1][..i] == extra[..i];
      var x := extra[i];
      if !IsDuplicate(merged, x) {
        merged := merged + [x];
      }
      i := i + 1;
    }
    assert extra[..|extra|] == extra;
    MergedKeepsReviews(reviews, extra);
  }

  /** Earlier reviews keep their places and are never removed. */
  lemma {:induction false} MergedKeepsReviews(reviews: seq<Review>, extra: seq<Review>)
    ensures |Merged(reviews, extra)| >= |reviews|
    ensures Merged(reviews, extra)[..|reviews|] == reviews
    decreases |extra|
  {
    if extra != [] {
      MergedKeepsReviews(reviews, extra[..|extra| - 1]);
    }
  }

  /** Everything after the earlier reviews comes from `extra`, in its order,
      and never repeats a review already kept. */
  lemma {:induction false} MergedAppendsNoDuplicate(reviews: seq<Review>, extra: seq<Review>)
    ensures var m := Merged(reviews, extra);
            forall j :: |reviews| <= j < |m| ==> m[j] in extra && !IsDuplicate(m[..j], m[j])
    decreases |extra|
  {
    if extra != [] {
      var front := extra[..|extra| - 1];
      MergedAppendsNoDuplicate(reviews, front);
      MergedKeepsReviews(reviews, front);
      var m := Merged(reviews, front);
      forall j | |reviews| <= j < |m|
        ensures m[j] in extra
      {
        assert m[j] in front;
      }
      if !IsDuplicate(m, extra[|extra| - 1]) {
        var m' := m + [extra[|extra| - 1]];
        assert m'[..|m|] == m;
        forall j | |reviews| <= j < |m|
          ensures m'[..j] == m[..j]
        {
        }
      }
    }
  }

  /** Every review of `extra` is either kept or the same as one that is. */
  lemma {:induction false} MergedCoversExtra(reviews: seq<Review>, extra: seq<Review>)
    ensures forall k :: 0 <= k < |extra| ==> IsDuplicate(Merged(reviews, extra), extra[k])
    decreases |extra|
  {
    if extra != [] {
      var front := extra[..|extra| - 1];
      MergedCoversExtra(reviews, front);
      var m := Merged(reviews, front);
      var x := extra[|extra| - 1];
      var m' := Merged(reviews, extra);
      assert m'[..|m|] == m by {
        if !IsDuplicate(m, x) {
          assert m' == m + [x];
        }
      }
      forall k | 0 <= k < |extra|
        ensures IsDuplicate(m', extra[k])
      {
        if k < |extra| - 1 {
          assert extra[k] == front[k];
          var i :| 0 <= i < |m| && SameReview(m[i], extra[k]);
          assert m'[i] == m[i];
        } else if !IsDuplicate(m, x) {
          assert m'[|m|] == x;
        } else {
          var i :| 0 <= i < |m| && SameReview(m[i], x);
          assert m'[i] == m[i];
        }
      }
    }
  }

  /** Merging keeps every review well formed. */
  lemma {:induction false} MergedWellFormed(reviews: seq<Review>, extra: seq<Review>)
    requires forall k :: 0 <= k < |reviews| ==> WellFormed(reviews[k])
    requires forall k :: 0 <= k < |extra| ==> WellFormed(extra[k])
    ensures forall k :: 0 <= k < |Merged(reviews, extra)| ==> WellFormed(Merged(reviews, extra)[k])
    decreases |extra|
  {
    if extra != [] {
      MergedWellFormed(reviews, extra[..|extra| - 1]);
    }
  }

  /** What one fetch of the review page yields: the element containers and
      the raw page with its pattern matches. None stands for a failed
      request or a page that could not be read. */
  datatype ReviewPage = ReviewPage(containers: seq<Container>, html: string, matches: PageMatches)

  /** The reviews of a page: the element pass; the raw-page passes alone when
      it found nothing, else merged into it without duplicates. */
  function PageReviews(page: Option<ReviewPage>, now: int): (rs: seq<Review>)
    ensures page.None? ==> rs == []
  {
    match page
    case None => []
    case Some(p) =>
      var fromElements := ElementReviews(p.containers, now);
      var fromHtml := ReviewsFromHtml(p.html, p.matches, now);
      if fromElements == [] then fromHtml else Merged(fromElements, fromHtml)
  }

  method FetchReviews(page: Option<ReviewPage>, now: int) returns (reviews: seq<Review>)
    ensures reviews == PageReviews(page, now)
    ensures forall k :: 0 <= k < |reviews| ==> WellFormed(reviews[k])
  {
    if page.None? {
      return [];
    }
    var p := page.value;
    reviews := ElementPass(p.containers, now);
    ElementReviewsWellFormed(p.containers, now);
    var fromHtml := ParseReviewsFromHtml(p.html, p.matches, now);
    if |reviews| == 0 {
      reviews := fromHtml;
    } else {
      MergedWellFormed(reviews, fromHtml);
      reviews := MergeReviews(reviews, fromHtml);
    }
  }

  /** The element pass's reviews lead the page's reviews, in their order. */
  lemma ElementReviewsLead(p: ReviewPage, now: int)
    ensures var rs := PageReviews(Some(p), now);
            var es := ElementReviews(p.containers, now);
            |rs| >= |es| && rs[..|es|] == es
  {
    var es := ElementReviews(p.containers, now);
    if es != [] {
      MergedKeepsReviews(es, ReviewsFromHtml(p.html, p.matches, now));
    }
  }

  // ---------------------------------------------------------------------------
  // Profile checks

  predicate PlausibleAge(n: nat)
  {
    13 <= n <= 120
  }

  /** The first capture of the age patterns that is a plausible age. */
  function FirstPlausibleAge(captures: seq<Option<nat>>): (r: Option<nat>)
    ensures r.Some? ==> PlausibleAge(r.value) && Some(r.value) in captures
    ensures r.None? <==> forall i :: 0 <= i < |captures| ==> captures[i].None? || !PlausibleAge(captures[i].value)
  {
    if captures == [] then None
    else if captures[0].Some? && PlausibleAge(captures[0].value) then captures[0]
    else
      var r := FirstPlausibleAge(captures[1..]);
      assert forall i :: 1 <= i < |captures| ==> captures[i] == captures[1..][i - 1];
      r
  }

  /** The age found is the capture of the first pattern whose capture is
      plausible: every earlier pattern captured nothing or an implausible age. */
  lemma {:induction false} FirstPlausibleAt(captures: seq<Option<nat>>, i: nat)
    requires i < |captures| && captures[i].Some? && PlausibleAge(captures[i].value)
    requires forall j :: 0 <= j < i ==> captures[j].None? || !PlausibleAge(captures[j].value)
    ensures FirstPlausibleAge(captures) == captures[i]
    decreases i
  {
    if i > 0 {
      FirstPlausibleAt(captures[1..], i - 1);
    }
  }

  /** The profile's age: the first plausible capture of the three age
      patterns, in their order, else the metadata age when it is plausible,
      else none. */
  method ProfileAge(captures: seq<Option<nat>>, meta: Option<nat>) returns (age: Option<nat>)
    ensures age.Some? ==> PlausibleAge(age.value)
    ensures FirstPlausibleAge(captures).Some? ==> age == FirstPlausibleAge(captures)
    ensures FirstPlausibleAge(captures).None? ==> age == (if meta.Some? && PlausibleAge(meta.value) then meta else None)
  {
    age := None;
    var i := 0;
    while i < |captures|
      invariant 0 <= i <= |captures|
      invariant FirstPlausibleAge(captures) == FirstPlausibleAge(captures[i..])
    {
      var c := captures[i];
      if c.Some? && PlausibleAge(c.value) {
        age := c;
        return;
      }
      assert captures[i..][1..] == captures[i + 1..];
      i := i + 1;
    }
    if meta.Some? && PlausibleAge(meta.value) {
      age := meta;
    }
  }

  /** The collection counts of a profile. */
  datatype Stats = Stats(films: nat, series: nat, games: nat, books: nat, total: nat)

  const FallbackStats := Stats(32, 17, 19, 0, 68)

  /** Counts that read as nothing at all are replaced by the fallback. */
  function WithFallback(s: Stats): (r: Stats)
    ensures !(r.total == 0 && r.films == 0 && r.series == 0)
    ensures (s.total != 0 || s.films != 0 || s.series != 0) ==> r == s
    ensures r == s || r == FallbackStats
  {
    if s.total == 0 && s.films == 0 && s.series == 0 then FallbackStats else s
  }
}
