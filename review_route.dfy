/** The `/senscritique` HTTP route: it reads `limit`, `offset`, `type` and
    `force` from the query, serves the profile cached in memory for an hour
    when it holds reviews, otherwise scrapes again, then filters the reviews
    by type and returns one page of them with its pagination record. The
    scrape itself is the `outcome` parameter; the clock is `now`. */
module ReviewRoute {
  import opened Wrappers
  import opened Text
  import Scraper
  import opened Monitoring

  const CacheDuration: nat := 3600000
  const DefaultLimit: nat := 50
  const MaxLimit: nat := 100
  const LimitMessage := "La limite doit \U{EA}tre entre 1 et 100"
  const OffsetMessage := "L'offset doit \U{EA}tre positif"
  const EndpointContext := "senscritique_endpoint"

  // ---------------------------------------------------------------------
  // parseInt

  predicate IsHexDigit(c: char)
  {
    IsDigit(c) || ('a' <= c <= 'f') || ('A' <= c <= 'F')
  }

  function HexDigitValue(c: char): (v: nat)
    ensures v < 16
  {
    if IsDigit(c) then DigitValue(c)
    else if 'a' <= c <= 'f' then c as int - 'a' as int + 10
    else if 'A' <= c <= 'F' then c as int - 'A' as int + 10
    else 0
  }

  predicate IsRadixDigit(c: char, hex: bool)
  {
    if hex then IsHexDigit(c) else IsDigit(c)
  }

  /** The length of the run of digits `s` starts with. */
  function DigitRun(s: string, hex: bool): (n: nat)
    ensures n <= |s|
    ensures forall i :: 0 <= i < n ==> IsRadixDigit(s[i], hex)
    ensures n == |s| || !IsRadixDigit(s[n], hex)
  {
    if s == [] || !IsRadixDigit(s[0], hex) then 0 else 1 + DigitRun(s[1..], hex)
  }

  /** The value of a run of digits in base 10 or 16. */
  function RunValue(s: string, hex: bool): nat
  {
    if s == [] then 0
    else RunValue(s[..|s| - 1], hex) * (if hex then 16 else 10)
         + (if hex then HexDigitValue(s[|s| - 1]) else DigitValue(s[|s| - 1]))
  }

  /** `parseInt(s)` without a radix, `None` for NaN: leading white space is
      skipped, one sign is read, "0x" or "0X" switches to base 16, and the
      longest run of digits that follows is the value; no digit is NaN. */
  function ParseInt(s: string): Option<int>
  {
    ParseSigned(TrimStart(s))
  }

  function ParseSigned(t: string): (r: Option<int>)
    ensures t == [] || (t[0] != '-' && t[0] != '+') ==> r == ParseMagnitude(t)
    ensures t != [] && t[0] == '-' ==> r == Negated(ParseMagnitude(t[1..]))
  {
    if t != [] && t[0] == '-' then Negated(ParseMagnitude(t[1..]))
    else if t != [] && t[0] == '+' then ParseMagnitude(t[1..])
    else ParseMagnitude(t)
  }

  function Negated(m: Option<int>): (r: Option<int>)
    ensures m.None? ==> r.None?
    ensures m.Some? ==> r == Some(-m.value)
  {
    if m.None? then None else Some(-m.value)
  }

  /** The unsigned part: the value of the longest run of digits, in base 16
      after "0x" or "0X"; `None` when there is no digit. */
  function ParseMagnitude(u: string): (r: Option<int>)
    ensures r.Some? ==> r.value >= 0
  {
    var hex := |u| >= 2 && u[0] == '0' && (u[1] == 'x' || u[1] == 'X');
    var body := if hex then u[2..] else u;
    var n := DigitRun(body, hex);
    if n == 0 then None else Some(RunValue(body[..n], hex))
  }

  /** Reading decimal digits is `Text.DigitsValue`. */
  lemma {:induction false} DecimalRunValue(s: string)
    ensures RunValue(s, false) == DigitsValue(s)
  {
    if s != [] {
      DecimalRunValue(s[..|s| - 1]);
    }
  }

  /** `parseInt` reads back the decimal text of any integer. */
  lemma ParseIntReadsDecimal(n: nat)
    ensures ParseInt(NatToString(n)) == Some(n)
  {
    ParseIntStopsAtNonDigit(n, "");
    assert NatToString(n) + "" == NatToString(n);
  }

  /** ... and of any negative integer. */
  lemma ParseIntReadsNegative(n: nat)
    ensures ParseInt("-" + NatToString(n)) == Some(-(n as int))
  {
    var d := NatToString(n);
    MagnitudeStopsAtNonDigit(n, "");
    assert d + "" == d;
    var s := "-" + d;
    assert s[0] == '-' && s[1..] == d;
    TrimStartUnpadded(s);
    SignedNegative(s, n);
  }

  lemma SignedNegative(s: string, n: nat)
    requires s != [] && s[0] == '-' && ParseMagnitude(s[1..]) == Some(n)
    ensures ParseSigned(s) == Some(-(n as int))
  {
  }

  /** `parseInt` stops at the first character that is not a digit, so
      "20abc" reads as 20. */
  lemma ParseIntStopsAtNonDigit(n: nat, tail: string)
    requires tail == [] || (!IsDigit(tail[0]) && tail[0] != 'x' && tail[0] != 'X')
    ensures ParseInt(NatToString(n) + tail) == Some(n)
  {
    var s := NatToString(n) + tail;
    assert s[0] == NatToString(n)[0];
    TrimStartUnpadded(s);
    MagnitudeStopsAtNonDigit(n, tail);
  }

  lemma {:induction false} MagnitudeStopsAtNonDigit(n: nat, tail: string)
    requires tail == [] || (!IsDigit(tail[0]) && tail[0] != 'x' && tail[0] != 'X')
    ensures ParseMagnitude(NatToString(n) + tail) == Some(n)
  {
    var d := NatToString(n);
    var s := d + tail;
    assert s[0] == d[0];
    assert !(|s| >= 2 && s[0] == '0' && (s[1] == 'x' || s[1] == 'X')) by {
      if |d| == 1 {
        assert |s| >= 2 ==> s[1] == tail[0];
      } else {
        assert d[0] != '0';
      }
    }
    RunOfDigits(d, tail);
    assert s[..|d|] == d;
    DecimalRunValue(d);
  }

  lemma {:induction false} RunOfDigits(d: string, tail: string)
    requires AllDigits(d)
    requires tail == [] || !IsDigit(tail[0])
    ensures DigitRun(d + tail, false) == |d|
  {
    if d != [] {
      assert (d + tail)[1..] == d[1..] + tail;
      RunOfDigits(d[1..], tail);
    } else {
      assert d + tail == tail;
    }
  }

  // ---------------------------------------------------------------------
  // Query parameters

  /** The query string: each parameter is absent or a text. `kind` is the
      `type` parameter. */
  datatype Query = Query(limit: Option<string>, offset: Option<string>, kind: Option<string>, force: Option<string>)

  /** `parseInt(param) || fallback`: NaN (an absent parameter included) and
      0 both give the fallback. */
  function NumberOr(param: Option<string>, fallback: int): (v: int)
    ensures param.None? ==> v == fallback
    ensures v == fallback || (param.Some? && ParseInt(param.value) == Some(v))
    ensures param.Some? && ParseInt(param.value).Some? && ParseInt(param.value).value != 0 ==>
              v == ParseInt(param.value).value
    ensures v == 0 ==> fallback == 0
  {
    var parsed := if param.Some? then ParseInt(param.value) else None;
    if parsed.None? || parsed.value == 0 then fallback else parsed.value
  }

  function LimitOf(q: Query): int
  {
    NumberOr(q.limit, DefaultLimit)
  }

  function OffsetOf(q: Query): int
  {
    NumberOr(q.offset, 0)
  }

  datatype Params = Invalid(message: string) | Valid(limit: nat, offset: nat)

  /** The parameter check: the limit is checked first and must lie in
      1..100, then the offset must not be negative. */
  function CheckParams(q: Query): (r: Params)
    ensures r.Valid? <==> 1 <= LimitOf(q) <= MaxLimit && OffsetOf(q) >= 0
    ensures r.Valid? ==> r.limit == LimitOf(q) && r.offset == OffsetOf(q) && 1 <= r.limit <= MaxLimit
    ensures !(1 <= LimitOf(q) <= MaxLimit) ==> r == Invalid(LimitMessage)
    ensures 1 <= LimitOf(q) <= MaxLimit && OffsetOf(q) < 0 ==> r == Invalid(OffsetMessage)
  {
    var limit := LimitOf(q);
    var offset := OffsetOf(q);
    if limit < 1 || limit > MaxLimit then Invalid(LimitMessage)
    else if offset < 0 then Invalid(OffsetMessage)
    else Valid(limit, offset)
  }

  /** Absent parameters, and a limit of 0, mean 50 reviews from the first. */
  lemma DefaultParams(kind: Option<string>, force: Option<string>)
    ensures CheckParams(Query(None, None, kind, force)) == Valid(DefaultLimit, 0)
    ensures CheckParams(Query(Some("0"), Some("0"), kind, force)) == Valid(DefaultLimit, 0)
  {
    ParseIntZero();
    var q := Query(Some("0"), Some("0"), kind, force);
    ValidParams(q, DefaultLimit, 0);
    ValidParams(Query(None, None, kind, force), DefaultLimit, 0);
  }

  lemma ParseIntZero()
    ensures ParseInt("0") == Some(0)
  {
    ParseIntReadsDecimal(0);
    assert NatToString(0) == "0";
  }

  lemma ValidParams(q: Query, limit: nat, offset: nat)
    requires LimitOf(q) == limit && OffsetOf(q) == offset && 1 <= limit <= MaxLimit
    ensures CheckParams(q) == Valid(limit, offset)
  {
  }

  /** A parameter holding the decimal text of a number reads as that
      number, unless it is 0. */
  lemma NumberOrDecimal(n: nat, fallback: int)
    ensures n != 0 ==> NumberOr(Some(NatToString(n)), fallback) == n
    ensures NumberOr(Some(NatToString(n)), 0) == n
  {
    ParseIntReadsDecimal(n);
  }

  lemma NumberOrNegative(n: nat)
    requires n > 0
    ensures NumberOr(Some("-" + NatToString(n)), 0) == -(n as int)
  {
    ParseIntReadsNegative(n);
  }

  /** A limit written in decimal is kept when it lies in 1..100, and so is
      any offset written in decimal. */
  lemma ExplicitParamsKept(limit: nat, offset: nat, kind: Option<string>, force: Option<string>)
    requires 1 <= limit <= MaxLimit
    ensures CheckParams(Query(Some(NatToString(limit)), Some(NatToString(offset)), kind, force)) == Valid(limit, offset)
  {
    NumberOrDecimal(limit, DefaultLimit);
    NumberOrDecimal(offset, 0);
    ValidParams(Query(Some(NatToString(limit)), Some(NatToString(offset)), kind, force), limit, offset);
  }

  /** A limit above 100 is rejected, whatever the offset. */
  lemma LargeLimitRejected(limit: nat, offset: Option<string>, kind: Option<string>, force: Option<string>)
    requires limit > MaxLimit
    ensures CheckParams(Query(Some(NatToString(limit)), offset, kind, force)) == Invalid(LimitMessage)
  {
    NumberOrDecimal(limit, DefaultLimit);
  }

  /** A negative offset is rejected once the limit is valid. */
  lemma NegativeOffsetRejected(limit: nat, offset: nat, kind: Option<string>, force: Option<string>)
    requires 1 <= limit <= MaxLimit && offset > 0
    ensures CheckParams(Query(Some(NatToString(limit)), Some("-" + NatToString(offset)), kind, force)) == Invalid(OffsetMessage)
  {
    NumberOrDecimal(limit, DefaultLimit);
    NumberOrNegative(offset);
  }

  // ---------------------------------------------------------------------
  // Filter and page

  type Review = Scraper.Review

  /** The review's url contains "/<kind>/". */
  predicate OfKind(r: Review, kind: string)
  {
    r.url.Some? && Contains(r.url.value, "/" + kind + "/")
  }

  /** The type filter: applied only when `type` is a non-empty text. */
  function TypeFiltered(reviews: seq<Review>, kind: Option<string>): (r: seq<Review>)
    ensures |r| <= |reviews|
    ensures kind.None? || kind.value == [] ==> r == reviews
  {
    if kind.None? || kind.value == [] then reviews else KeepKind(reviews, kind.value)
  }

  function KeepKind(reviews: seq<Review>, kind: string): (r: seq<Review>)
    ensures |r| <= |reviews|
  {
    if reviews == [] then []
    else KeepKind(reviews[..|reviews| - 1], kind)
         + (if OfKind(reviews[|reviews| - 1], kind) then [reviews[|reviews| - 1]] else [])
  }

  /** The filter keeps exactly the reviews of the kind. */
  lemma {:induction false} KeepKindExactly(reviews: seq<Review>, kind: string, x: Review)
    ensures x in KeepKind(reviews, kind) <==> x in reviews && OfKind(x, kind)
  {
    if reviews != [] {
      var front := reviews[..|reviews| - 1];
      KeepKindExactly(front, kind, x);
      assert reviews == front + [reviews[|reviews| - 1]];
    }
  }

  /** The filter keeps the reviews' order: filtering a concatenation
      concatenates the filtered parts. */
  lemma {:induction false} KeepKindAppend(xs: seq<Review>, ys: seq<Review>, kind: string)
    ensures KeepKind(xs + ys, kind) == KeepKind(xs, kind) + KeepKind(ys, kind)
  {
    if ys == [] {
      assert xs + ys == xs;
    } else {
      var front := ys[..|ys| - 1];
      assert (xs + ys)[..|xs + ys| - 1] == xs + front;
      KeepKindAppend(xs, front, kind);
    }
  }

  /** `reviews.slice(offset, offset + limit)`. */
  function Page<T>(xs: seq<T>, offset: nat, limit: nat): (r: seq<T>)
    ensures |r| <= limit
    ensures offset >= |xs| ==> r == []
    ensures offset < |xs| ==> |r| == if offset + limit <= |xs| then limit else |xs| - offset
    ensures forall j :: 0 <= j < |r| ==> offset + j < |xs| && r[j] == xs[offset + j]
  {
    if offset >= |xs| then [] else xs[offset..if offset + limit <= |xs| then offset + limit else |xs|]
  }

  /** Two consecutive pages make one page as long as both. */
  lemma PageSplit<T>(xs: seq<T>, offset: nat, a: nat, b: nat)
    ensures Page(xs, offset, a) + Page(xs, offset + a, b) == Page(xs, offset, a + b)
  {
    var p := Page(xs, offset, a);
    var q := Page(xs, offset + a, b);
    var c := Page(xs, offset, a + b);
    assert |p + q| == |c|;
    forall j | 0 <= j < |c|
      ensures (p + q)[j] == c[j]
    {
      if j >= |p| {
        assert (p + q)[j] == q[j - |p|];
      }
    }
  }

  /** `Math.ceil(a / b)` for a positive `b`. */
  function CeilDiv(a: nat, b: nat): (r: nat)
    requires b > 0
    ensures r * b >= a
    ensures r == 0 || (r - 1) * b < a
  {
    var r := (a + b - 1) / b;
    assert a + b - 1 == r * b + (a + b - 1) % b;
    assert r == 0 || (r - 1) * b == r * b - b;
    r
  }

  datatype Pagination = Pagination(total: nat, limit: nat, offset: nat, hasMore: bool, page: nat, totalPages: nat)

  /** The pagination record of a page of `limit` reviews from `offset` in a
      list of `total`. */
  function PaginationOf(total: nat, limit: nat, offset: nat): (p: Pagination)
    requires limit > 0
    ensures p.total == total && p.limit == limit && p.offset == offset
    ensures p.hasMore <==> offset + limit < total
    ensures p.page >= 1 && (p.page - 1) * limit <= offset < p.page * limit
    ensures p.totalPages * limit >= total && (p.totalPages == 0 || (p.totalPages - 1) * limit < total)
  {
    var page := offset / limit + 1;
    assert offset == (offset / limit) * limit + offset % limit;
    assert page * limit == (offset / limit) * limit + limit;
    Pagination(total, limit, offset, offset + limit < total, page, CeilDiv(total, limit))
  }

  lemma MulMonotone(x: int, y: int, b: nat)
    requires x <= y
    ensures x * b <= y * b
  {
    assert y * b - x * b == (y - x) * b;
  }

  /** When the offset is a whole number of pages, there are more reviews
      exactly when this page is not the last. */
  lemma HasMoreBeforeLastPage(total: nat, limit: nat, k: nat)
    requires limit > 0
    ensures var p := PaginationOf(total, limit, k * limit);
            p.page == k + 1 && (p.hasMore <==> p.page < p.totalPages)
  {
    var p := PaginationOf(total, limit, k * limit);
    WholePageNumber(limit, k, p.page);
    LastPageBound(total, limit, k, p.totalPages);
  }

  /** The page whose range holds the offset `k * limit` is page `k + 1`. */
  lemma WholePageNumber(limit: nat, k: nat, page: nat)
    requires limit > 0 && page >= 1
    requires (page - 1) * limit <= k * limit < page * limit
    ensures page == k + 1
  {
    if page < k + 1 {
      MulMonotone(page, k, limit);
    } else if page > k + 1 {
      MulMonotone(k + 1, page - 1, limit);
    }
  }

  /** With `pages` the page count of `total`, the page after the `k`-th full
      page ends before `total` exactly when it is not the last page. */
  lemma LastPageBound(total: nat, limit: nat, k: nat, pages: nat)
    requires limit > 0
    requires pages * limit >= total && (pages == 0 || (pages - 1) * limit < total)
    ensures k * limit + limit < total <==> k + 1 < pages
  {
    assert (k + 1) * limit == k * limit + limit;
    if pages > k + 1 {
      MulMonotone(k + 1, pages - 1, limit);
    } else {
      MulMonotone(pages, k + 1, limit);
    }
  }

  // ---------------------------------------------------------------------
  // The handler

  /** A scraped profile: its other fields, and its reviews (`None` when the
      scraper gave no array). */
  datatype Profile<P> = Profile(rest: P, reviews: Option<seq<Review>>)

  /** The profile as cached: missing reviews become the empty list. */
  function Normalised<P>(p: Profile<P>): (r: Profile<P>)
    ensures r.rest == p.rest && r.reviews.Some?
    ensures p.reviews.Some? ==> r.reviews == p.reviews
    ensures p.reviews.None? ==> r.reviews == Some([])
  {
    Profile(p.rest, Some(p.reviews.GetOr([])))
  }

  /** How the scrape ended: a profile and the time it took in hundredths of
      a second, or a failure with its message. */
  datatype ScrapeOutcome<P> = Scraped(profile: Profile<P>, elapsed: nat) | Failed(message: string)

  /** The fallback body of a failed request. */
  datatype Fallback = Fallback(username: string, gender: string, location: string, stats: Scraper.Stats, reviews: seq<Review>)

  const RouteFallback := Fallback("KiMi_", "Homme", "France", Scraper.FallbackStats, [])

  datatype Response<P> =
    | BadRequest(message: string)
    | Served(rest: P, reviews: seq<Review>, pagination: Pagination)
    | ServerError(message: string, fallback: Fallback)

  /** The answer built from a profile's reviews: the filtered reviews from
      `offset`, at most `limit` of them, and the pagination of the filtered
      list. */
  function View<P>(rest: P, reviews: seq<Review>, kind: Option<string>, limit: nat, offset: nat): (r: Response<P>)
    requires limit > 0
    ensures r.Served? && r.rest == rest && |r.reviews| <= limit
    ensures r.pagination.total == |TypeFiltered(reviews, kind)|
    ensures r.reviews == Page(TypeFiltered(reviews, kind), offset, limit)
    ensures r.pagination == PaginationOf(|TypeFiltered(reviews, kind)|, limit, offset)
  {
    var shown := TypeFiltered(reviews, kind);
    Served(rest, Page(shown, offset, limit), PaginationOf(|shown|, limit, offset))
  }

  /** Every review served is of the requested kind. */
  lemma ViewShowsKind<P>(rest: P, reviews: seq<Review>, kind: string, limit: nat, offset: nat)
    requires limit > 0 && kind != []
    ensures forall r :: r in View(rest, reviews, Some(kind), limit, offset).reviews ==> r in reviews && OfKind(r, kind)
  {
    var shown := KeepKind(reviews, kind);
    forall r | r in View(rest, reviews, Some(kind), limit, offset).reviews
      ensures r in reviews && OfKind(r, kind)
    {
      KeepKindExactly(reviews, kind, r);
    }
  }

  /** The cache is consulted (and a cache hit logged): no forced refresh, a
      cached profile, fetched less than an hour ago. */
  predicate CacheConsulted<P>(force: Option<string>, cached: Option<Profile<P>>, lastFetch: int, now: int)
  {
    force != Some("true") && cached.Some? && now - lastFetch < CacheDuration
  }

  /** The cached profile is served: it is consulted and holds reviews. */
  predicate CacheServes<P>(force: Option<string>, cached: Option<Profile<P>>, lastFetch: int, now: int)
  {
    CacheConsulted(force, cached, lastFetch, now) && cached.value.reviews.Some? && |cached.value.reviews.value| > 0
  }

  class ReviewRouteHandler<P> {
    var cached: Option<Profile<P>>
    var lastFetch: int
    const monitor: Monitor

    constructor (m: Monitor)
      ensures cached.None? && lastFetch == 0 && monitor == m
    {
      cached := None;
      lastFetch := 0;
      monitor := m;
    }

    /** `GET /senscritique/clear-cache`. */
    method ClearCache()
      modifies this
      ensures cached.None? && lastFetch == 0
    {
      cached := None;
      lastFetch := 0;
    }

    /** `GET /senscritique`. */
    method Handle(q: Query, now: int, outcome: ScrapeOutcome<P>) returns (resp: Response<P>)
      modifies this, monitor
      ensures CheckParams(q).Invalid? ==>
                resp == BadRequest(CheckParams(q).message) && cached == old(cached) && lastFetch == old(lastFetch)
                && unchanged(monitor)
      ensures CheckParams(q).Valid? && CacheServes(q.force, old(cached), old(lastFetch), now) ==>
                resp == View(old(cached).value.rest, old(cached).value.reviews.value, q.kind, CheckParams(q).limit, CheckParams(q).offset)
                && cached == old(cached) && lastFetch == old(lastFetch)
      ensures CheckParams(q).Valid? && !CacheServes(q.force, old(cached), old(lastFetch), now) && outcome.Scraped? ==>
                cached == Some(Normalised(outcome.profile)) && lastFetch == now
                && resp == View(outcome.profile.rest, Normalised(outcome.profile).reviews.value, q.kind, CheckParams(q).limit, CheckParams(q).offset)
      ensures CheckParams(q).Valid? && !CacheServes(q.force, old(cached), old(lastFetch), now) && outcome.Failed? ==>
                cached == old(cached) && lastFetch == old(lastFetch)
                && resp == ServerError(outcome.message, RouteFallback)
                && monitor.errors == KeepLast(old(monitor.errors) + [ErrorEntry(now, outcome.message, EndpointContext)], MaxErrors)
      ensures CheckParams(q).Valid? ==>
                monitor.cacheHits == old(monitor.cacheHits) + (if CacheConsulted(q.force, old(cached), old(lastFetch), now) then 1 else 0)
                && monitor.scrapingRequests == old(monitor.scrapingRequests)
                   + (if !CacheServes(q.force, old(cached), old(lastFetch), now) && outcome.Scraped? then 1 else 0)
      ensures CheckParams(q).Valid? ==>
                monitor.totalRequests == old(monitor.totalRequests)
                  + (if CacheConsulted(q.force, old(cached), old(lastFetch), now) then 1 else 0)
                  + (if !CacheServes(q.force, old(cached), old(lastFetch), now) && outcome.Scraped? then 1 else 0)
      ensures CheckParams(q).Valid? && (CacheServes(q.force, old(cached), old(lastFetch), now) || outcome.Failed?) ==>
                monitor.lastScrapingTimes == old(monitor.lastScrapingTimes) && monitor.alerts == old(monitor.alerts)
      ensures CheckParams(q).Valid? && (CacheServes(q.force, old(cached), old(lastFetch), now) || outcome.Scraped?) ==>
                monitor.errors == old(monitor.errors)
      ensures CheckParams(q).Valid? && !CacheServes(q.force, old(cached), old(lastFetch), now) && outcome.Scraped? ==>
                var n := |Normalised(outcome.profile).reviews.value|;
                && monitor.lastScrapingTimes
                     == KeepLast(old(monitor.lastScrapingTimes) + [Timing(now, outcome.elapsed, n)], MaxTimings)
                && monitor.alerts
                     == if n == 0 then KeepLast(old(monitor.alerts) + [Alert(now, ZeroReviewsKind, ZeroReviewsMessage)], MaxAlerts)
                        else old(monitor.alerts)
      ensures old(monitor.Balanced()) ==> monitor.Balanced()
      ensures old(monitor.Bounded()) ==> monitor.Bounded()
    {
      var params := CheckParams(q);
      if params.Invalid? {
        return BadRequest(params.message);
      }
      var limit, offset := params.limit, params.offset;
      if q.force != Some("true") && cached.Some? && now - lastFetch < CacheDuration {
        monitor.LogCacheHit();
        var profile := cached.value;
        if profile.reviews.Some? && |profile.reviews.value| > 0 {
          return View(profile.rest, profile.reviews.value, q.kind, limit, offset);
        }
      }
      match outcome {
        case Failed(message) =>
          monitor.LogError(message, EndpointContext, now);
          resp := ServerError(message, RouteFallback);
        case Scraped(profile, elapsed) =>
          var reviews := if profile.reviews.Some? then profile.reviews.value else [];
          monitor.LogScrapingCall(elapsed, |reviews|, None, now);
          cached := Some(Profile(profile.rest, Some(reviews)));
          lastFetch := now;
          resp := View(profile.rest, reviews, q.kind, limit, offset);
      }
    }
  }

  /** After a scrape that found reviews, every request within the hour that
      does not force a refresh is served from the cache. */
  lemma FreshScrapeServes<P>(profile: Profile<P>, fetchedAt: int, force: Option<string>, now: int)
    requires profile.reviews.Some? && |profile.reviews.value| > 0
    requires force != Some("true") && fetchedAt <= now < fetchedAt + CacheDuration
    ensures CacheServes(force, Some(Normalised(profile)), fetchedAt, now)
  {
  }

  /** A scrape that found no review never serves from the cache: the next
      request scrapes again, and still logs a cache hit while within the
      hour. */
  lemma EmptyScrapeRescrapes<P>(profile: Profile<P>, fetchedAt: int, force: Option<string>, now: int)
    requires profile.reviews.None? || profile.reviews.value == []
    ensures !CacheServes(force, Some(Normalised(profile)), fetchedAt, now)
    ensures CacheConsulted(force, Some(Normalised(profile)), fetchedAt, now) <==>
              force != Some("true") && now - fetchedAt < CacheDuration
  {
  }

  /** After the cache is cleared, nothing is served from it. */
  lemma ClearedCacheScrapes<P>(force: Option<string>, now: int)
    ensures !CacheConsulted<P>(force, None, 0, now)
  {
  }
}
