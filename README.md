# SensCritique reviews and portfolio page: a Dafny model

This project models the core of a personal portfolio site. Its back end scrapes the owner's
SensCritique profile: reviews, their dates, ratings, age and collection counts. It serves the
reviews through a cached and paginated HTTP route and records monitoring counters. Its front end:

- caches API answers in the browser's local storage;
- formats review dates;
- cleans scraped text;
- picks and formats GitHub dates;
- computes the contribution streak;
- pages through the reviews with a "Charger plus" button.

Modules, one per file:

- `Wrappers`: the `Option` type.
- `Text`: JavaScript's `\s`, `\d`, `\w`, `trim`, `toLowerCase` and `includes`, and decimal texts.
- `Pattern`: the handful of regular-expression shapes the source uses, as token sequences. It
  includes a leftmost search that agrees with JavaScript's `match` for those shapes.
- `FrenchDates`: the scraper's `parseRelativeDate` and `parseFrenchDate`, the month lexicon, and
  the round trips of the texts the front end renders.
- `Scraper`:
  - the date extractors (`extractDateFromHTML`, `extractDateFromElement`);
  - the three raw-page passes and the element pass that build review records;
  - the merge of both sources without duplicates;
  - the age and statistics fallbacks.
- `DateUtils`: `assets/js/utils/date.js` (`getTimeAgo`, `formatReviewDate`, `parseDateFromText`
  and the front-end recognisers).
- `Monitoring`: the monitoring record as a class whose methods update it in place.
- `ReviewRoute`: the `/senscritique` route, with its parameter checks, hour-long in-memory cache,
  type filter and pagination.
- `ClientCache`: the `CacheManager` of `Front/assets/js/cache.js` over a map standing for local
  storage.
- `PortfolioPage`: from `assets/js/main.js`:
  - `cleanHTML`, `parseGitHubDate`, `extractGitHubDate`, `getTimeAgo`, `isCacheValid`;
  - `calculateStreak`, a method with its two loops;
  - the review pager, a class.

Conventions:

- The clock is always a `now` parameter, in milliseconds since the epoch.
- What `Date` does with calendars and time zones is a `Calendar` parameter or an `Instant`
  constructor:
  - reading a date text;
  - the local fields of an instant;
  - month and year subtraction.
- Network answers, DOM queries and the matches of the scraper's structural regular expressions
  are inputs.

## Model

| member | source | states |
|---|---|---|
| Text.Trim | assets/js/main.js:800 | no white space at either end, and no longer than the input |
| Text.TrimIdempotent | assets/js/main.js:800 | trimming twice is trimming once |
| Text.TrimIsSlice | assets/js/main.js:800 | the trimmed text is a slice of the input with only white space before and after it |
| Text.TrimStartSpaces | assets/js/main.js:800 | everything trimming drops at the start is white space |
| Text.TrimEndSpaces | assets/js/main.js:800 | everything trimming drops at the end is white space |
| Pattern.Search | senscritique-scraper.js:251 | the match found is the leftmost one: no match starts earlier |
| FrenchDates.MonthIndexIsMonth | senscritique-scraper.js:428-443 | every lexicon word maps to a month index 0..11, and every month has a word |
| FrenchDates.PhraseCount | senscritique-scraper.js:368-370 | a count is found exactly when the phrase pattern for the unit matches |
| FrenchDates.ResolveRelative | senscritique-scraper.js:368-413 | days, then weeks, then months, then years, then "aujourd'hui" or "auj", then "hier", each giving the instant that many units before now; none exactly when no phrase and no keyword occurs |
| FrenchDates.ParseRelativeDate | senscritique-scraper.js:361-422 | empty text gives none; otherwise the cascade on the trimmed lower-cased text, else the numeric D/M/YYYY date (its value is stated by `ParseRelativeDateNumeric`); none exactly when neither applies |
| FrenchDates.ParseRelativeDateNumeric | senscritique-scraper.js:414-421 | a numeric D/M/YYYY result occurs only when the relative cascade found nothing and the text holds such a date; when it does, the result is the `new Date` of that match's day, month and year texts |
| FrenchDates.ParseFrenchDateWith | senscritique-scraper.js:425-460 | a result exactly when "le D word YYYY" matches and the word is in the lexicon; the result is local midnight of that year, month and day |
| FrenchDates.FrenchDateRoundTrip | assets/js/utils/date.js:38-43 | the corrected recogniser reads "le D word[.] YYYY" back as that date, for every lexicon word |
| FrenchDates.AsWrittenMissesAccentedMonths | senscritique-scraper.js:444 | with ASCII `\w` the recogniser as written never yields February, August or December |
| FrenchDates.AccentedMonthCounterexample | senscritique-scraper.js:444 | "le 4 déc. 2025" is read as 4 December 2025 by the corrected recogniser and not by the one as written |
| FrenchDates.RelativePhraseCount | senscritique-scraper.js:368-401 | in "il y a N word", the phrase for a unit matches with count N exactly when the word starts with that unit |
| FrenchDates.RelativeResolves | senscritique-scraper.js:368-401 | the cascade on "il y a N word" gives N days, 7N days, N months or N years before now, by the word |
| FrenchDates.RelativeRoundTrip | assets/js/utils/date.js:31-34 | the texts the front end renders read back, through the scraper's parser, as the instant they describe, and the front end's parser agrees |
| FrenchDates.TodayResolves | senscritique-scraper.js:404-406 | "aujourd'hui" is now |
| FrenchDates.YesterdayResolves | senscritique-scraper.js:408-412 | "hier" is one day before now |
| FrenchDates.CapitalisedYesterday | senscritique-scraper.js:365 | "Hier" is read as one day before now, since the text is lower-cased first |
| Scraper.FindPhraseWith | senscritique-scraper.js:251-255 | none exactly when the relative pattern does not match; else the matched text, trimmed |
| Scraper.PhraseFoundWhole | senscritique-scraper.js:301-303 | with plurals tried first, the phrase found in "il y a N word" is the whole text |
| Scraper.AsWrittenDropsPlural | senscritique-scraper.js:251 | with the alternatives in the order written, "il y a N jours" is taken as "il y a N jour" |
| Scraper.FindIso | senscritique-scraper.js:278-284 | the first `datetime` attribute only, kept exactly when it starts with YYYY-MM-DD |
| Scraper.ExtractDateFromHtml | senscritique-scraper.js:244-287 | the context's phrase, else the page's; the page's first ISO `datetime` whatever the context |
| Scraper.IsoIgnoresContext | senscritique-scraper.js:278-284 | every review of a page gets the same ISO date |
| Scraper.FirstFoundIndex | senscritique-scraper.js:298-307 | the index of the first element with a find, and none before it |
| Scraper.FirstFound | senscritique-scraper.js:298-307 | none exactly when no element yields anything |
| Scraper.FirstFoundLoop | senscritique-scraper.js:298-307 | the loop with its early exit returns what the first finding element yields |
| Scraper.WithHtmlFallback | senscritique-scraper.js:337-355 | the element's HTML is consulted only when neither a phrase nor an ISO date was found |
| Scraper.ExtractDateFromElement | senscritique-scraper.js:290-358 | the paragraphs, then the spans, then the `time` element, then the HTML; the ISO result always has the date prefix |
| Scraper.TimeIso | senscritique-scraper.js:324-334 | the `time` element's value, kept only with a YYYY-MM-DD prefix |
| Scraper.Truncate | senscritique-scraper.js:101 | content of at most 200 characters is kept; longer content is its first 200 characters and "..." |
| Scraper.TruncateKeepsLength | senscritique-scraper.js:53 | truncation keeps content longer than 20 characters longer than 20 |
| Scraper.CleanIso | senscritique-scraper.js:70-76 | an ISO value is used trimmed, exactly when the trimmed value has the date prefix |
| Scraper.PageStamp | senscritique-scraper.js:66-95 | `created_at` of the raw-page passes: the ISO value first; none without a text; a text holding "il y a" (case-sensitive) read relatively; else a "le D mois YYYY" text read absolutely; else, in the third pass only, an ISO-prefixed text kept as it is; else none |
| Scraper.MapStamp | senscritique-scraper.js:81-82 | a parsed instant becomes a stamp, and nothing stays nothing |
| Scraper.CapitalisedPhraseUnread | senscritique-scraper.js:80 | "Il y a 3 jours" is kept as the raw date but never read as a stamp |
| Scraper.ElementStamp | senscritique-scraper.js:511-530 | `created_at` of the element pass: the ISO value first, else the relative parser on the text |
| Scraper.RawDate | senscritique-scraper.js:102 | `date` is the raw text, never empty |
| Scraper.ChosenIndex | senscritique-scraper.js:36-42 | the first capture longer than 20 characters once trimmed |
| Scraper.ChosenContent | senscritique-scraper.js:36-42 | none exactly when no capture is long enough; else the first long-enough capture, trimmed |
| Scraper.FirstContent | senscritique-scraper.js:36-42 | the loop over the content patterns stops at the first long-enough capture |
| Scraper.HeaderReview | senscritique-scraper.js:18-112 | a review exactly when the title is not blank and some content is long enough; it is well formed and carries the trimmed title, the truncated content, the raw date and `created_at` of the date found in the context (else the extended context), the site url of the link and the rating |
| Scraper.HeaderReviews | senscritique-scraper.js:12-113 | at most one review per header match, all well formed |
| Scraper.HeaderPass | senscritique-scraper.js:18-113 | the loop emits the reviews of the header matches in order |
| Scraper.BlockReview | senscritique-scraper.js:125-173 | a review exactly when the title is not blank, the content is longer than 20 characters and the title is not a site heading |
| Scraper.BlockReviewFields | senscritique-scraper.js:125-173 | a block review carries the truncated trimmed content, the raw date and `created_at` of the date found in the window around the match, the site url of the link and the rating |
| Scraper.Prepared | senscritique-scraper.js:229 | the third pass keeps no rating |
| Scraper.AsSeq | senscritique-scraper.js:111 | an emitted review is one element, a skipped one none |
| Scraper.BlockReviews | senscritique-scraper.js:116-233 | at most one review per match, all well formed; the third pass's reviews have no rating |
| Scraper.BlockPass | senscritique-scraper.js:125-174 | the loop emits the reviews of the matches in order |
| Scraper.ReviewsFromHtml | senscritique-scraper.js:5-241 | the first pass's reviews when there are any, else the second's, else the third's; all well formed |
| Scraper.ParseReviewsFromHtml | senscritique-scraper.js:116-178 | each later pass runs only when the earlier ones found nothing |
| Scraper.RatingOf | senscritique-scraper.js:538-545 | no rating element gives no rating; a rating text gives a rating exactly when it holds a digit |
| Scraper.RatingIsFirstRun | senscritique-scraper.js:541-543 | the rating is the value of the run of digits that starts at the text's first digit |
| Scraper.DigitRunAt | senscritique-scraper.js:541 | `(\d+)` matches exactly at a digit and captures the whole run of digits there |
| Scraper.BuildElementReview | senscritique-scraper.js:503-558 | a review exactly when the title element exists and the content is longer than 20 characters; it carries the trimmed title and the element pass's `created_at`, and a missing link gives an empty url |
| Scraper.BuildElementReviewFields | senscritique-scraper.js:503-558 | an element review carries the truncated content, the raw date, the rating of the rating text, and the site url of the link |
| Scraper.ElementReviewWellFormed | senscritique-scraper.js:547-558 | every review of the element pass is well formed |
| Scraper.ElementReviews | senscritique-scraper.js:496-560 | at most one review per element |
| Scraper.ElementReviewsWellFormed | senscritique-scraper.js:496-560 | every review of the element pass is well formed |
| Scraper.ElementPass | senscritique-scraper.js:496-560 | the `forEach` emits the element reviews in document order |
| Scraper.Head50 | senscritique-scraper.js:573 | the first 50 characters, or the whole text when it is shorter |
| Scraper.MergeReviews | senscritique-scraper.js:570-577 | the merge loop; the element reviews keep their places |
| Scraper.MergedKeepsReviews | senscritique-scraper.js:570-577 | merging never drops or moves an earlier review |
| Scraper.MergedAppendsNoDuplicate | senscritique-scraper.js:572-576 | every appended review comes from the raw-page list and repeats no review kept before it |
| Scraper.MergedCoversExtra | senscritique-scraper.js:572-576 | every raw-page review is kept or is the same as one that is |
| Scraper.MergedWellFormed | senscritique-scraper.js:563-578 | merging keeps every review well formed |
| Scraper.PageReviews | senscritique-scraper.js:481-590 | a failed request gives no reviews |
| Scraper.FetchReviews | senscritique-scraper.js:481-590 | the element pass, then the raw-page passes alone or merged in; all reviews well formed |
| Scraper.ElementReviewsLead | senscritique-scraper.js:563-578 | the element reviews lead the result, in their order |
| Scraper.FirstPlausibleAge | senscritique-scraper.js:803-814 | the first capture between 13 and 120; none exactly when no capture is plausible |
| Scraper.FirstPlausibleAt | senscritique-scraper.js:803-814 | when every earlier pattern captured nothing plausible, the age is the first plausible capture |
| Scraper.ProfileAge | senscritique-scraper.js:797-828 | the first plausible capture of the age patterns, else a plausible metadata age, else none |
| Scraper.WithFallback | senscritique-scraper.js:749-755 | counts that are all zero are replaced by 68/32/17/19/0; any other counts are kept |
| DateUtils.AgoText | assets/js/utils/date.js:17-43 | none exactly for a date in the future |
| DateUtils.GetTimeAgo | assets/js/utils/date.js:1-44 | none for an empty or non-date argument, and exactly when no time is read or it is in the future |
| DateUtils.Floors | assets/js/utils/date.js:18-29 | the chained floors of seconds, minutes, hours and days are floors of the milliseconds |
| DateUtils.AgoShortBuckets | assets/js/utils/date.js:20-27 | under a minute "À l'instant", then "N min", then "Nh" |
| DateUtils.AgoDayBuckets | assets/js/utils/date.js:30-31 | one day "Hier", two to six days "il y a N jours" |
| DateUtils.AgoWeekBuckets | assets/js/utils/date.js:33-43 | one to three weeks "il y a N semaine(s)", from 28 days "le D mois YYYY" |
| DateUtils.ParseRelativeDateText | assets/js/utils/date.js:112-165 | empty text gives none; otherwise the cascade on the trimmed lower-cased text with single spaces |
| DateUtils.RelativeTextReadsBack | assets/js/utils/date.js:112-165 | the front end reads its own relative texts as the scraper's cascade does |
| DateUtils.DaysReadBack | assets/js/utils/date.js:31 | "il y a N jours" reads back as an instant no more than a day after the original |
| DateUtils.WeeksReadBack | assets/js/utils/date.js:33-34 | "il y a N semaine(s)" reads back as an instant no more than a week after the original |
| DateUtils.YesterdayReadsBack | assets/js/utils/date.js:30 | "Hier" reads back as an instant no more than a day after the original |
| DateUtils.CapitalisedYesterdayText | assets/js/utils/date.js:116 | "Hier" is read whatever its case |
| DateUtils.MonthAbbrInLexicon | assets/js/utils/date.js:38-41 | every month abbreviation rendered is a lexicon word of its own month |
| DateUtils.AbsoluteReadsBack | assets/js/utils/date.js:38-43 | the corrected recogniser reads "le D mois YYYY" back as local midnight of that date |
| DateUtils.ParseFrenchDateText | assets/js/utils/date.js:169-203 | empty text gives none; a result is local midnight of a day of one of the twelve months |
| DateUtils.AbsoluteUnreadAsWritten | assets/js/utils/date.js:188 | as written, the absolute text rendered for a February, August or December date does not read back as that date |
| DateUtils.ParseDateFromText | assets/js/utils/date.js:90-109 | an ISO-prefixed text verbatim, and an ISO result only for such a text; else the relative reading when there is one; else the absolute one; none exactly when all fail |
| DateUtils.ValueArg | assets/js/utils/date.js:68-75 | what is handed back to `getTimeAgo` reads as the parsed instant |
| DateUtils.DisplayShapeNonEmpty | assets/js/utils/date.js:52-65 | no text shown as it is is empty |
| DateUtils.FormatReviewDate | assets/js/utils/date.js:46-87 | '' for no date; the trimmed text for a display shape; else the "time ago" text of the parsed date when there is one, else the "time ago" text of the date itself when there is one, else the input |
| DateUtils.ViaParse | assets/js/utils/date.js:68-76 | the "time ago" text of the parsed value, handed to `getTimeAgo` as its ISO text; none when nothing parses |
| DateUtils.FormatShapeIdempotent | assets/js/utils/date.js:52-65 | a displayed text is shown trimmed, and formatting it again changes nothing |
| DateUtils.FormatKeepsAgoText | assets/js/utils/date.js:46-65 | the texts `getTimeAgo` shows for one day to four weeks are kept by `formatReviewDate` |
| DateUtils.AgoRelative | assets/js/utils/date.js:31-34 | from two days to four weeks, the text shown is a relative phrase |
| DateUtils.ParseDateReadsRelative | assets/js/utils/date.js:90-102 | `parseDateFromText` reads a relative phrase as the instant the cascade gives |
| Monitoring.KeepLast | Back/server/services/monitoring.js:63-65 | `slice(-n)` on a longer list: its n newest entries, in order |
| Monitoring.KeepLastAppend | Back/server/services/monitoring.js:57-65 | appending to a full list drops the oldest entry and puts the new one last |
| Monitoring.AverageDuration | Back/server/services/monitoring.js:152-156 | 0 for no timing; else the mean rounded to the nearest hundredth |
| Monitoring.AverageOfEqualDurations | Back/server/services/monitoring.js:152-156 | equal durations average to that duration |
| Monitoring.Monitor.constructor | Back/server/services/monitoring.js:12-19 | every counter 0 and every list empty |
| Monitoring.Monitor.LogScrapingCall | Back/server/services/monitoring.js:50-107 | one more request and scrape; the timing kept among the 50 newest; the error among the 100 newest; a ZERO_REVIEWS alert among the 50 newest exactly when no review was found; bounds and balance kept |
| Monitoring.Monitor.LogCacheHit | Back/server/services/monitoring.js:112-121 | one more request and cache hit, nothing else changes |
| Monitoring.Monitor.LogError | Back/server/services/monitoring.js:126-143 | the error among the 100 newest, nothing else changes |
| Monitoring.Monitor.GetStats | Back/server/services/monitoring.js:148-175 | the record as it is; the average duration of the timings (0 when there is none); the latest timing if any; the five newest alerts |
| Monitoring.Monitor.ResetStats | Back/server/services/monitoring.js:245-248 | the default record again, with empty lists (the corrected reset; see Findings) |
| Monitoring.DefaultsAfterScrape | Back/server/services/monitoring.js:33 | a scrape logged while no monitoring file exists pushes its timing, error and ZERO_REVIEWS alert into the default record's own lists, and nothing else |
| Monitoring.ResetRecordAsWritten | Back/server/services/monitoring.js:245-246 | as written, the reset record has zero counters and whatever the default lists hold |
| Monitoring.ResetKeepsFirstScrape | Back/server/services/monitoring.js:33 | after a first scrape with no review, the reset as written keeps that scrape's timing and alert |
| ReviewRoute.NumberOr | Back/server/routes/senscritique.js:43-44 | `parseInt(x) \|\| fallback`: the parsed number unless it is NaN or 0 |
| ReviewRoute.ParseIntReadsDecimal | Back/server/routes/senscritique.js:43-44 | the decimal text of n parses as n |
| ReviewRoute.CheckParams | Back/server/routes/senscritique.js:43-60 | valid exactly when 1 <= limit <= 100 and offset >= 0; the limit is checked first |
| ReviewRoute.DefaultParams | Back/server/routes/senscritique.js:43-44 | no parameters, or limit and offset "0", mean limit 50 and offset 0 |
| ReviewRoute.ExplicitParamsKept | Back/server/routes/senscritique.js:43-60 | a decimal limit in 1..100 and a decimal offset are used as given |
| ReviewRoute.LargeLimitRejected | Back/server/routes/senscritique.js:48-53 | a limit above 100 is rejected with the limit message |
| ReviewRoute.NegativeOffsetRejected | Back/server/routes/senscritique.js:55-60 | a negative offset is rejected with the offset message |
| ReviewRoute.TypeFiltered | Back/server/routes/senscritique.js:138-140 | no filter without a non-empty `type` |
| ReviewRoute.KeepKindExactly | Back/server/routes/senscritique.js:138-140 | the filter keeps exactly the reviews whose url contains "/type/" |
| ReviewRoute.KeepKindAppend | Back/server/routes/senscritique.js:138-140 | the filter keeps the reviews' order |
| ReviewRoute.Page | Back/server/routes/senscritique.js:144 | `slice(offset, offset + limit)`: the reviews from the offset, at most the limit of them |
| ReviewRoute.PageSplit | Back/server/routes/senscritique.js:144 | two consecutive pages make one page as long as both |
| ReviewRoute.CeilDiv | Back/server/routes/senscritique.js:155 | `Math.ceil(a / b)`: the least multiple count covering a |
| ReviewRoute.PaginationOf | Back/server/routes/senscritique.js:146-156 | hasMore exactly when reviews remain after the page; page is the page holding the offset; totalPages covers the total |
| ReviewRoute.HasMoreBeforeLastPage | Back/server/routes/senscritique.js:153-155 | at a page boundary, hasMore exactly when the page is not the last |
| ReviewRoute.Normalised | Back/server/routes/senscritique.js:119-122 | a profile without a review array gets an empty one |
| ReviewRoute.View | Back/server/routes/senscritique.js:135-157 | the filtered reviews' page and its pagination record |
| ReviewRoute.ViewShowsKind | Back/server/routes/senscritique.js:138-144 | every review served with a type is of that type |
| ReviewRoute.ReviewRouteHandler.constructor | Back/server/routes/senscritique.js:7-8 | no cached profile and fetch time 0 |
| ReviewRoute.ReviewRouteHandler.ClearCache | Back/server/routes/senscritique.js:14-19 | the cache is emptied |
| ReviewRoute.ReviewRouteHandler.Handle | Back/server/routes/senscritique.js:38-187 | bad parameters answered 400 with nothing changed; a fresh cache with reviews served; otherwise a scrape cached and served, or a 500 with the fallback and the error logged; cache hits, scrapes and requests counted; a scrape's timing kept among the 50 newest and a ZERO_REVIEWS alert added exactly when it found no review; the error list unchanged except on failure; monitor balance and bounds kept |
| ReviewRoute.FreshScrapeServes | Back/server/routes/senscritique.js:65-71 | after a scrape with reviews, unforced requests within the hour are served from the cache |
| ReviewRoute.EmptyScrapeRescrapes | Back/server/routes/senscritique.js:65-99 | a cached profile without reviews never serves, but still counts a cache hit within the hour |
| ReviewRoute.ClearedCacheScrapes | Back/server/routes/senscritique.js:14-19 | after clearing, the cache is not consulted |
| ClientCache.StorageKey | Front/assets/js/cache.js:22 | the key behind the "portfolio_" prefix |
| ClientCache.StorageKeyInjective | Front/assets/js/cache.js:22 | two keys never share a slot |
| ClientCache.Duration | Front/assets/js/cache.js:8-13 | the key's table duration, else ten minutes; always positive |
| ClientCache.Lookup | Front/assets/js/cache.js:20-48 | a value exactly when the slot holds a record with a non-zero timestamp less than the key's duration ago |
| ClientCache.AfterGet | Front/assets/js/cache.js:38-42 | only the read key's stale record is removed |
| ClientCache.Put | Front/assets/js/cache.js:55-61 | the key's slot holds the value stamped now; other slots are unchanged |
| ClientCache.RemoveAllExactly | Front/assets/js/cache.js:82-90 | a slot survives exactly when it belongs to no removed key |
| ClientCache.ClearedKeysGone | Front/assets/js/cache.js:84-85 | after `clearAll` no cleared key reads anything |
| ClientCache.ClearKeepsOthers | Front/assets/js/cache.js:84-85 | `clearAll` changes nothing for any other key |
| ClientCache.ClearKeepsProjects | Front/assets/js/cache.js:84 | the GitHub project list survives `clearAll` |
| ClientCache.GetAfterSet | Front/assets/js/cache.js:20-61 | a value written at a non-zero instant reads back at once; one written at instant 0 never does |
| ClientCache.SetValidFor | Front/assets/js/cache.js:29-32 | a written value reads back exactly during its key's duration |
| ClientCache.SetKeepsOthers | Front/assets/js/cache.js:55-61 | writing one key does not change what another reads |
| ClientCache.GetIsStable | Front/assets/js/cache.js:38-42 | reading again at the same instant answers the same and removes nothing more |
| ClientCache.CacheManager.Get | Front/assets/js/cache.js:20-48 | returns the lookup and leaves the storage as `AfterGet` says |
| ClientCache.CacheManager.Set | Front/assets/js/cache.js:55-77 | a successful write stores the value; a full storage clears the cache; another failure changes nothing |
| ClientCache.CacheManager.ClearAll | Front/assets/js/cache.js:82-90 | removes the three cleared keys' slots |
| PortfolioPage.StripTags | assets/js/main.js:1216 | no tag remains; text without "<" is kept; every "<" or ">" left comes from the input (what is kept around a tag: `StripTagsRemovesTag`) |
| PortfolioPage.StripTagsKeepsPrefix | assets/js/main.js:1216 | text before the first "<" is kept as it is |
| PortfolioPage.StripTagsRemovesTag | assets/js/main.js:1216 | a tag is removed and the text before and after it is kept |
| PortfolioPage.IndexOfIs | assets/js/main.js:1216 | the first occurrence of a character is where it occurs with none before it |
| PortfolioPage.CollapseSpaces | assets/js/main.js:1235 | every white-space run becomes one space (the non-space characters kept in order: `CollapseKeepsNonSpaces`) |
| PortfolioPage.CollapseKeepsNonSpaces | assets/js/main.js:1235 | collapsing keeps the non-space characters of the text, in order |
| PortfolioPage.CollapseSplit | assets/js/main.js:1235 | text split after a non-space character collapses piece by piece |
| PortfolioPage.CollapsesRun | assets/js/main.js:1235 | a white-space run between two texts becomes one space |
| PortfolioPage.CollapseKeepsSingleSpaced | assets/js/main.js:1235 | single-spaced text is kept as it is |
| PortfolioPage.WithoutAttributes | assets/js/main.js:1219-1224 | the deletions create no tag, and change nothing in text without a quote (which fragments go: `WithoutAttributesDeletes`) |
| PortfolioPage.RemoveAttributeDeletes | assets/js/main.js:1219-1224 | a `name="value"` fragment in quote-free text is deleted and the text around it kept |
| PortfolioPage.RemoveAttributeSkips | assets/js/main.js:1219-1224 | text in which no fragment starts is kept as it is in front of the rest |
| PortfolioPage.WithoutAttributesDeletes | assets/js/main.js:1219-1224 | a `class="…"`, `data-testid="…"` or `href="…"` fragment is deleted by the six passes, and the text around it kept |
| PortfolioPage.Untagged | assets/js/main.js:1216 | no tag remains; text without "<" is only trimmed (a tag dropped: `UntaggedDropsTag`) |
| PortfolioPage.UntaggedDropsTag | assets/js/main.js:1216 | removing the tags and trimming gives the same text with or without a tag in it |
| PortfolioPage.CleanHtml | assets/js/main.js:1212-1238 | '' for empty text and for text starting "a " or "a class" after the deletions; otherwise no tag, single-spaced and trimmed (what is kept: `CleanHtmlKeepsPlainText`, `CleanHtmlDropsTag`, `CleanHtmlDropsAttribute`) |
| PortfolioPage.CleanHtmlDropsTag | assets/js/main.js:1212-1238 | a tag in the text changes nothing in the cleaned result |
| PortfolioPage.CleanHtmlDropsAttribute | assets/js/main.js:1212-1238 | a `class`, `data-testid` or `href` fragment between plain texts changes nothing in the cleaned result |
| PortfolioPage.CleanHtmlKeepsPlainText | assets/js/main.js:1212-1238 | plain single-spaced trimmed text not starting with "a " is kept as it is |
| PortfolioPage.ParseGitHubDate | assets/js/main.js:790-816 | an instant exactly for a string whose trimmed form starts with YYYY-MM-DD and reads as a date; it is that date |
| PortfolioPage.GitHubDateIgnoresPadding | assets/js/main.js:800 | surrounding white space changes nothing |
| PortfolioPage.ExtractGitHubDate | assets/js/main.js:755-787 | the first valid date among commit, `pushed_at`, `updated_at` and `created_at`; none exactly when none is valid |
| PortfolioPage.FirstValidIsFirst | assets/js/main.js:755-787 | the candidate cascade yields nothing exactly when no candidate is valid, and otherwise the earliest valid one |
| PortfolioPage.CommitDateFirst | assets/js/main.js:764-769 | a valid commit date wins |
| PortfolioPage.CreatedAtLast | assets/js/main.js:772-784 | without a commit, `created_at` is used exactly when the two other fields are invalid and it is valid |
| PortfolioPage.AsWrittenZeroCounts | assets/js/main.js:868-877 | at 28 and 29 days the label as written is "0 mois", at 360 to 364 days "0 an" |
| PortfolioPage.AgoBucket | assets/js/main.js:842-877 | each bucket by its range of elapsed time, each count the floor of that time, every count at least 1 |
| PortfolioPage.AsWrittenAgreesElsewhere | assets/js/main.js:850-877 | outside 28-29 and 360-364 days, the corrected bucket is the one written |
| PortfolioPage.AgoTime | assets/js/main.js:820-839 | a string through `parseGitHubDate` first, then `new Date`; a `Date` as it is; none for anything else |
| PortfolioPage.GetTimeAgo | assets/js/main.js:819-878 | none exactly when no time is read or it is in the future; else the label of its bucket |
| PortfolioPage.GitHubDateAgo | assets/js/main.js:850-862 | a GitHub date read just now shows "À l'instant", one a day old "Hier" |
| PortfolioPage.CacheValidAsStoredEntry | assets/js/main.js:94-96 | `isCacheValid` agrees with the client cache's freshness test |
| PortfolioPage.CacheValidityExpires | assets/js/main.js:94-96 | once too old, a fetch stays too old; valid exactly before fetch time plus duration |
| PortfolioPage.EventDaysExactly | assets/js/main.js:585-595 | a day is in the set exactly when some event's readable date falls on it |
| PortfolioPage.CollectEventDays | assets/js/main.js:582-595 | the set built by the first loop is the set of event days |
| PortfolioPage.RunBack | assets/js/main.js:598-607 | the run back is bounded by its limit |
| PortfolioPage.RunBackExact | assets/js/main.js:598-607 | a run of k present days ending at a missing day has length k |
| PortfolioPage.RunBackPresent | assets/js/main.js:598-607 | every day of the run is present |
| PortfolioPage.CountStreak | assets/js/main.js:597-607 | the count of the walk back is the streak of the set at today |
| PortfolioPage.CalculateStreak | assets/js/main.js:580-610 | the streak of the event days at today's day |
| PortfolioPage.StreakBounds | assets/js/main.js:598 | at most 365, and at most k when the day k days back is missing |
| PortfolioPage.StreakDaysPresent | assets/js/main.js:602-606 | every day counted before today is an event day |
| PortfolioPage.StreakWithoutToday | assets/js/main.js:602-606 | a missing today does not end the streak |
| PortfolioPage.ValidOnlyMembers | assets/js/main.js:1020 | keeps exactly the reviews with a non-blank title |
| Text.TrimNonEmpty | assets/js/main.js:1020 | a title trims to something exactly when it holds a character that is not white space |
| PortfolioPage.ValidOnlyAppend | assets/js/main.js:1020 | the filter keeps order across pages |
| PortfolioPage.NextPageAppends | assets/js/main.js:1156-1164 | the next page continues the pages shown so far |
| PortfolioPage.NextPageShown | assets/js/main.js:1154-1164 | showing the next page keeps the display the displayable part of the pages shown |
| PortfolioPage.LoadMoreUntilAllShown | assets/js/main.js:1131-1138 | the pages shown cover every review exactly from the last page on |
| PortfolioPage.AsWrittenFallbackRepeats | assets/js/main.js:1173-1177 | the page requested by the fallback as written is already shown; the next page is the one that follows |
| PortfolioPage.ReviewPager.constructor | assets/js/main.js:13-16 | page 1 of 1 with no reviews |
| PortfolioPage.ReviewPager.ShowFirstPage | assets/js/main.js:890-901 | page 1 of ceil(n / 5), its displayable reviews shown |
| PortfolioPage.ReviewPager.LoadMoreReviews | assets/js/main.js:1144-1200 | from the cache, the next page appended; from the backend, the next page and its page count; a failed request changes nothing; the display stays the pages shown so far |
| PortfolioPage.ReviewPager.ShowCachedPage | assets/js/main.js:1154-1169 | the page advanced, the displayable reviews of the new page appended; the pages shown stay shown |
| PortfolioPage.ReviewPager.ShowServerPage | assets/js/main.js:1170-1189 | the page advanced, the page count of the server's reviews taken, the next page appended; the pages shown stay shown |
| PortfolioPage.ReviewPager.AllShownWithoutButton | assets/js/main.js:1131-1138 | once the button is gone, every displayable review is displayed |

## Left out

- Network requests (`https.get`, `fetch`), JSDOM and the DOM are inputs. This covers the
  element queries, the review containers and the rendering of the page.
- The scraper's structural matches are inputs: the titles, contents, links and ratings of the
  three raw-page passes. The date recognisers are modelled concretely.
- The "Par KiMi_" date fallback of `extractDateFromHTML` (senscritique-scraper.js:258-265) is
  left out. Any text it captures is a relative phrase inside the context, so the first search of
  the context would already have found one.
- `date_raw` and `updated_at` of a review are not modelled. They are copies of `date` and
  `created_at`.
- The profile fetch outside reviews is not modelled: gender, location, favourites, collections
  and counting the statistics.
- The Discord alert of `logScrapingCall`, the console logs and the monitoring file's persistence
  are left out. `loadMonitoring` after a failed read is the in-memory record.
- Monitoring.Monitor.LogScrapingCall: `parseFloat(scrapingTime)` is modelled as whole hundredths
  of a second. Floating point is not modelled.
- Monitoring.Monitor.GetStats: `cacheHitRate` and `errorRate` are floating-point percentages
  rounded with `toFixed` and are not computed. The average is a whole number of hundredths, the
  nearest one to the mean.
- `GET /senscritique/stats` only returns `getStats()` and is not a separate member.
- ReviewRoute.ReviewRouteHandler.Handle: the scrape is the `outcome` parameter, and the scraper
  module behind it is not called. `Date.now()` is `now`.
- ReviewRoute.ReviewRouteHandler.Handle: the fallback body of a failed request omits `age`,
  `collections`, `profileUrl` and `avatar`. They are constants with no bearing on the route's
  logic.
- ReviewRoute.ReviewRouteHandler.Handle: the answer carries the profile's other fields as an
  opaque value.
- ReviewRoute.ReviewRouteHandler.Handle: a request that reaches the scrape after a cache hit is
  counted twice in `totalRequests`, once as a cache hit and once as a scrape. This is modelled
  as written.
- `getStats` of cache.js only renders ages and sizes for the console. It is left out, as is the
  Ctrl+Shift+R shortcut.
- ClientCache.CacheManager.Get: text that `JSON.parse` rejects is an unreadable slot that `get`
  leaves in place. The parse error itself is not modelled.
- PortfolioPage.CalculateStreak: `toISOString().split('T')[0]` is the UTC day number
  `ms / 86400000`. `setDate(getDate() - i)` is taken as exactly i days before, which ignores
  daylight-saving shifts of the local clock.
- FrenchDates.ResolveRelative: "il y a N jours" and "il y a N semaines" are taken as exactly N
  days (or 7N days) of milliseconds before now. The source subtracts them with the local
  `setDate(getDate() - n)` (senscritique-scraper.js:371-372; assets/js/utils/date.js:123, 132,
  161), which differs by an hour across a daylight-saving change. `DateUtils.ParseRelativeDateText`
  inherits this.
- PortfolioPage.ReviewPager: the in-memory fallback of `fetchSensCritiqueData`
  (assets/js/main.js:905-908) is not modelled. That branch renders the whole cached profile and
  leaves `currentPage` and `totalPages` as they were; the pager's state is modelled only through
  `ShowFirstPage`, `ShowCachedPage` and `ShowServerPage`.
- PortfolioPage.GetTimeAgo: the model uses the corrected buckets (see Findings).
  `AgoBucketAsWritten` keeps the buckets as written.
- PortfolioPage.ReviewPager.LoadMoreReviews: the backend answer is the server's full review
  list; the route's own paging is `ReviewRoute.View`. The model uses the corrected offset (see
  Findings), and the button's label and state are not modelled.
- Scraper.ExtractDateFromHtml: its phrase search is the corrected `FindPhrase`, which tries each
  plural before its singular. As written (senscritique-scraper.js:251) the singular wins, so
  "il y a 3 jours" is kept as "il y a 3 jour"; `FindPhraseAsWritten` is that version (see
  Findings).
- Scraper.ExtractDateFromElement: its phrase searches (senscritique-scraper.js:303, 350) use the
  corrected `FindPhrase` too, for the same reason.
- Scraper.PageStamp: the "le D mois YYYY" branch reads with the corrected `ParseFrenchDate`. As
  written (senscritique-scraper.js:444) no date of February, August or December is read
  (`ParseFrenchDateAsWritten`, see Findings).
- DateUtils.ParseFrenchDateText: the corrected recogniser as well; date.js:188 has the same
  ASCII `\w` as the scraper (see Findings).
- DateUtils.ParseDateFromText: inherits the corrected absolute recogniser of
  `ParseFrenchDateText`.
- DateUtils.FormatReviewDate: inherits it too. As written, "le 4 déc. 2025" parses to nothing
  and is returned unchanged; the model returns its "time ago" text.
- Monitoring.Monitor.ResetStats: the model keeps the record itself, not the monitoring file and
  the module's default record. The shared default lists are modelled on values by
  `DefaultsAfterScrape` and `ResetRecordAsWritten` (see Findings); the reset the class performs
  is the corrected one.
- The `stack` of the error object that `logError` records (monitoring.js:126-143) is not a
  field of `ErrorEntry`. It is text produced by the runtime.
- Scraper.Truncate: JavaScript's `length` and `substring` count UTF-16 code units, while a Dafny
  `char` is a whole Unicode scalar value. Text outside the Basic Multilingual Plane (emoji) is
  shorter here, so `Truncate` cuts it later and the `length > 20` test of `Emittable`
  (senscritique-scraper.js:53, 550) can differ.
- Scraper.Head50: the first 50 scalar values rather than 50 UTF-16 code units, for the same
  reason (senscritique-scraper.js:573).
- `toISOString` throws a RangeError for an invalid or out-of-range `Date`, such as a huge N in
  "il y a N jours" or "99/99/2020". In the source this ends `parseReviewsFromHTML` with the
  reviews found so far (the catch at senscritique-scraper.js:236) or makes
  `fetchSensCritiqueReviews` answer [] (583-586). The model's instants are symbolic and never
  fail, so these exception paths are not modelled.
- PortfolioPage.ReviewPager.ShowServerPage: it advances the page before computing the offset,
  so it requests the next page. The source computes the offset from the unadvanced page
  (main.js:1175); that is the Findings row, modelled as written by `AsWrittenFallbackRepeats`.
- `Date` parsing, local calendar fields and month or year subtraction are abstract. They are
  the `Calendar` parameter and the `Instant` constructors; `new Date(text)` is `cal.read`.
- Regular expressions other than the shapes in `Pattern` are not modelled.

## Findings

| source | as written | input that shows it | evidently intended | confidence | as-written member | corrected member |
|---|---|---|---|---|---|---|
| senscritique-scraper.js:444 | the month word is `\w+`, which is ASCII only, so "fév", "août", "déc" and the other accented lexicon words never match | "le 4 déc. 2025" gives null | read the accented words of its own lexicon | high, not executed | FrenchDates.AccentedMonthCounterexample | FrenchDates.FrenchDateRoundTrip |
| senscritique-scraper.js:251 | the unit alternation lists each singular before its plural, so the first alternative wins | "il y a 3 jours" is kept as "il y a 3 jour" | keep the whole phrase, as the comment at line 303 says | high, not executed | Scraper.AsWrittenDropsPlural | Scraper.PhraseFoundWhole |
| assets/js/main.js:868-877 | weeks are shown while fewer than 4, then months of 30 days, then years of 365 days | 28 days shows "0 mois"; 360 days shows "0 an" | every count at least 1 | high, not executed | PortfolioPage.AsWrittenZeroCounts | PortfolioPage.AgoBucket |
| assets/js/main.js:1175 | the backend fallback computes the offset without advancing `currentPage` | page 1 shown, "Charger plus" with no cached data requests offset 0 again | request the next page, as the cache branch does at lines 1156-1157 | high, not executed | PortfolioPage.AsWrittenFallbackRepeats | PortfolioPage.ReviewPager.LoadMoreReviews |
| assets/js/utils/date.js:188 | `parseFrenchDateText` repeats the scraper's ASCII `\w+` for the month word | the text `getTimeAgo` renders for 4 December 2025, "le 4 déc. 2025", parses to nothing, so `formatReviewDate` returns it unchanged | read the accented words of its own lexicon | high, not executed | DateUtils.AbsoluteUnreadAsWritten | DateUtils.AbsoluteReadsBack |
| Back/server/services/monitoring.js:33 | `{ ...defaultMonitoring }` is a shallow copy, so a `push` made while no monitoring file exists goes into the default record's own lists, which `resetStats` (line 246) saves again | a first scrape that finds no review, then `resetStats`: the saved record holds that timing and the ZERO_REVIEWS alert | a reset to empty lists | medium, not executed | Monitoring.ResetKeepsFirstScrape | Monitoring.Monitor.ResetStats |
