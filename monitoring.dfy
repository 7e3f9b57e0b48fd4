/** The scraping monitor: counters of requests, scrapes and cache hits, the
    latest scraping timings, errors and alerts, each list kept to a bounded
    number of newest entries. The record is held in memory; the clock is the
    `now` parameter. */
module Monitoring {
  import opened Wrappers

  const MaxTimings: nat := 50
  const MaxErrors: nat := 100
  const MaxAlerts: nat := 50
  const RecentAlertCount: nat := 5

  const ZeroReviewsKind := "ZERO_REVIEWS"
  const ZeroReviewsMessage := "\U{1F6A8} ALERTE : 0 critiques extraites - V\U{E9}rifier structure HTML SensCritique"

  /** One scrape: when it ended, how long it took in hundredths of a second,
      and how many reviews it found. */
  datatype Timing = Timing(timestamp: int, duration: nat, reviewsCount: int)

  datatype ErrorEntry = ErrorEntry(timestamp: int, message: string, kind: string)

  datatype Alert = Alert(timestamp: int, kind: string, message: string)

  /** `list.slice(-n)` when the list is longer than `n`: its `n` newest
      entries, in order. */
  function KeepLast<T>(s: seq<T>, n: nat): (r: seq<T>)
    ensures |r| == if |s| > n then n else |s|
    ensures |r| <= n || r == s
    ensures r == s[|s| - |r|..]
  {
    if |s| > n then s[|s| - n..] else s
  }

  /** Appending to a list cut to `n` entries drops the oldest entry first and
      puts the new one last. */
  lemma KeepLastAppend<T>(s: seq<T>, x: T, n: nat)
    requires 0 < n && |s| <= n
    ensures KeepLast(s + [x], n) == (if |s| == n then s[1..] else s) + [x]
    ensures |KeepLast(s + [x], n)| <= n && KeepLast(s + [x], n)[|KeepLast(s + [x], n)| - 1] == x
  {
    if |s| == n {
      assert (s + [x])[1..] == s[1..] + [x];
    }
  }

  function TotalDuration(times: seq<Timing>): nat
  {
    if times == [] then 0 else TotalDuration(times[..|times| - 1]) + times[|times| - 1].duration
  }

  /** The average duration to the nearest hundredth, 0 when there is none. */
  function AverageDuration(times: seq<Timing>): (avg: nat)
    ensures times == [] ==> avg == 0
    ensures times != [] ==>
              2 * TotalDuration(times) - |times| < 2 * |times| * avg <= 2 * TotalDuration(times) + |times|
  {
    if times == [] then 0 else (2 * TotalDuration(times) + |times|) / (2 * |times|)
  }

  /** When every scrape took the same time, that is the average. */
  lemma {:induction false} AverageOfEqualDurations(times: seq<Timing>, d: nat)
    requires times != [] && forall k :: 0 <= k < |times| ==> times[k].duration == d
    ensures AverageDuration(times) == d
  {
    TotalOfEqualDurations(times, d);
    var n := |times|;
    var avg := AverageDuration(times);
    assert 2 * n * (avg - d) == 2 * n * avg - 2 * TotalDuration(times);
    ScaledNear(n, avg - d);
  }

  /** The only multiple of `2 * n` in the half-open range (-n, n] is 0. */
  lemma {:induction false} ScaledNear(n: int, y: int)
    requires n > 0 && -n < 2 * n * y <= n
    ensures y == 0
  {
    MulSign(2 * n, y);
    assert 2 * n * y == (2 * n) * y;
  }

  lemma {:induction false} MulSign(n: int, y: int)
    requires n >= 0
    ensures y >= 1 ==> n * y >= n
    ensures y <= -1 ==> n * y <= -n
  {
    if n > 0 {
      MulSign(n - 1, y);
      assert n * y == (n - 1) * y + y;
    }
  }

  lemma {:induction false} TotalOfEqualDurations(times: seq<Timing>, d: nat)
    requires forall k :: 0 <= k < |times| ==> times[k].duration == d
    ensures TotalDuration(times) == |times| * d
  {
    if times != [] {
      TotalOfEqualDurations(times[..|times| - 1], d);
    }
  }

  /** The derived figures of `getStats`. */
  datatype Stats = Stats(avgScrapingDuration: nat, lastScraping: Option<Timing>, recentAlerts: seq<Alert>)

  /** The record `getStats` returns: the counters and lists, and the figures. */
  datatype Snapshot = Snapshot(
    totalRequests: nat,
    scrapingRequests: nat,
    cacheHits: nat,
    errors: seq<ErrorEntry>,
    lastScrapingTimes: seq<Timing>,
    alerts: seq<Alert>,
    stats: Stats)

  class Monitor {
    var totalRequests: nat
    var scrapingRequests: nat
    var cacheHits: nat
    var errors: seq<ErrorEntry>
    var lastScrapingTimes: seq<Timing>
    var alerts: seq<Alert>

    /** The default record: every counter 0 and every list empty. */
    predicate IsDefault()
      reads this
    {
      totalRequests == 0 && scrapingRequests == 0 && cacheHits == 0
      && errors == [] && lastScrapingTimes == [] && alerts == []
    }

    /** Each list holds at most its bound. */
    predicate Bounded()
      reads this
    {
      |lastScrapingTimes| <= MaxTimings && |errors| <= MaxErrors && |alerts| <= MaxAlerts
    }

    /** Every request was either a scrape or a cache hit. */
    predicate Balanced()
      reads this
    {
      totalRequests == scrapingRequests + cacheHits
    }

    constructor ()
      ensures IsDefault() && Bounded() && Balanced()
    {
      totalRequests, scrapingRequests, cacheHits := 0, 0, 0;
      errors, lastScrapingTimes, alerts := [], [], [];
    }

    /** Records a scrape: one more request and one more scrape, its timing,
        its error if it failed, and an alert when it found no review. */
    method LogScrapingCall(duration: nat, reviewsCount: int, error: Option<string>, now: int)
      modifies this
      ensures totalRequests == old(totalRequests) + 1 && scrapingRequests == old(scrapingRequests) + 1
      ensures cacheHits == old(cacheHits)
      ensures lastScrapingTimes == KeepLast(old(lastScrapingTimes) + [Timing(now, duration, reviewsCount)], MaxTimings)
      ensures errors == if error.Some? then KeepLast(old(errors) + [ErrorEntry(now, error.value, "scraping")], MaxErrors)
                        else old(errors)
      ensures alerts == if reviewsCount == 0 then KeepLast(old(alerts) + [Alert(now, ZeroReviewsKind, ZeroReviewsMessage)], MaxAlerts)
                        else old(alerts)
      ensures old(Bounded()) ==> Bounded()
      ensures old(Balanced()) ==> Balanced()
    {
      totalRequests := totalRequests + 1;
      scrapingRequests := scrapingRequests + 1;
      lastScrapingTimes := KeepLast(lastScrapingTimes + [Timing(now, duration, reviewsCount)], MaxTimings);
      if error.Some? {
        errors := KeepLast(errors + [ErrorEntry(now, error.value, "scraping")], MaxErrors);
      }
      if reviewsCount == 0 {
        alerts := KeepLast(alerts + [Alert(now, ZeroReviewsKind, ZeroReviewsMessage)], MaxAlerts);
      }
    }

    /** Records a request served from the cache, and nothing else. */
    method LogCacheHit()
      modifies this
      ensures totalRequests == old(totalRequests) + 1 && cacheHits == old(cacheHits) + 1
      ensures scrapingRequests == old(scrapingRequests)
      ensures errors == old(errors) && lastScrapingTimes == old(lastScrapingTimes) && alerts == old(alerts)
      ensures old(Bounded()) ==> Bounded()
      ensures old(Balanced()) ==> Balanced()
    {
      totalRequests := totalRequests + 1;
      cacheHits := cacheHits + 1;
    }

    /** Records an error of the given kind ("general" by default). */
    method LogError(message: string, context: string, now: int)
      modifies this
      ensures errors == KeepLast(old(errors) + [ErrorEntry(now, message, context)], MaxErrors)
      ensures |errors| <= MaxErrors
      ensures totalRequests == old(totalRequests) && scrapingRequests == old(scrapingRequests)
      ensures cacheHits == old(cacheHits) && lastScrapingTimes == old(lastScrapingTimes) && alerts == old(alerts)
      ensures old(Bounded()) ==> Bounded()
    {
      errors := KeepLast(errors + [ErrorEntry(now, message, context)], MaxErrors);
    }

    /** The record with its derived figures: the average duration (0 when
        no scrape is recorded), the latest timing if any, and the five newest
        alerts. */
    function GetStats(): (s: Snapshot)
      reads this
      ensures s.totalRequests == totalRequests && s.scrapingRequests == scrapingRequests && s.cacheHits == cacheHits
      ensures s.errors == errors && s.lastScrapingTimes == lastScrapingTimes && s.alerts == alerts
      ensures lastScrapingTimes == [] ==> s.stats.avgScrapingDuration == 0 && s.stats.lastScraping.None?
      ensures lastScrapingTimes != [] ==> s.stats.avgScrapingDuration == AverageDuration(lastScrapingTimes)
      ensures lastScrapingTimes != [] ==> s.stats.lastScraping == Some(lastScrapingTimes[|lastScrapingTimes| - 1])
      ensures |s.stats.recentAlerts| <= RecentAlertCount && |s.stats.recentAlerts| <= |alerts|
      ensures |s.stats.recentAlerts| == |alerts| || |s.stats.recentAlerts| == RecentAlertCount
      ensures s.stats.recentAlerts == alerts[|alerts| - |s.stats.recentAlerts|..]
    {
      var last := if lastScrapingTimes == [] then None else Some(lastScrapingTimes[|lastScrapingTimes| - 1]);
      Snapshot(totalRequests, scrapingRequests, cacheHits, errors, lastScrapingTimes, alerts,
               Stats(AverageDuration(lastScrapingTimes), last, KeepLast(alerts, RecentAlertCount)))
    }

    /** Restores the default record. */
    method ResetStats()
      modifies this
      ensures IsDefault() && Bounded() && Balanced()
    {
      totalRequests, scrapingRequests, cacheHits := 0, 0, 0;
      errors, lastScrapingTimes, alerts := [], [], [];
    }
  }
  // ---------------------------------------------------------------------------
  // The default record as written

  /** The three lists of the module's default record. While no monitoring
      file exists, `loadMonitoring` returns `{ ...defaultMonitoring }`, a
      shallow copy whose lists are the default record's own arrays. */
  datatype DefaultLists = DefaultLists(errors: seq<ErrorEntry>, lastScrapingTimes: seq<Timing>, alerts: seq<Alert>)

  /** The record as the monitoring file stores it. */
  datatype StoredRecord = StoredRecord(
    totalRequests: nat,
    scrapingRequests: nat,
    cacheHits: nat,
    errors: seq<ErrorEntry>,
    lastScrapingTimes: seq<Timing>,
    alerts: seq<Alert>)

  /** As written: the default record's lists after a `logScrapingCall` made
      while no monitoring file exists. Each `push` goes into a shared array
      (a `slice(-n)` after it reassigns only the copy's property), so the
      default lists gain the timing, the error if any and the alert when no
      review was found, and nothing else. */
  function DefaultsAfterScrape(d: DefaultLists, duration: nat, reviewsCount: int, error: Option<string>, now: int): (r: DefaultLists)
    ensures |r.lastScrapingTimes| == |d.lastScrapingTimes| + 1
    ensures r.lastScrapingTimes[..|d.lastScrapingTimes|] == d.lastScrapingTimes
    ensures r.lastScrapingTimes[|d.lastScrapingTimes|..] == [Timing(now, duration, reviewsCount)]
    ensures error.None? ==> r.errors == d.errors
    ensures error.Some? ==> r.errors == d.errors + [ErrorEntry(now, error.value, "scraping")]
    ensures reviewsCount != 0 <==> r.alerts == d.alerts
  {
    DefaultLists(
      if error.Some? then d.errors + [ErrorEntry(now, error.value, "scraping")] else d.errors,
      d.lastScrapingTimes + [Timing(now, duration, reviewsCount)],
      if reviewsCount == 0 then d.alerts + [Alert(now, ZeroReviewsKind, ZeroReviewsMessage)] else d.alerts)
  }

  /** As written, `resetStats` saves `{ ...defaultMonitoring }`: zero
      counters, and whatever the default record's lists hold. */
  function ResetRecordAsWritten(d: DefaultLists): (r: StoredRecord)
    ensures r.totalRequests == 0 && r.scrapingRequests == 0 && r.cacheHits == 0
    ensures r.errors == d.errors && r.lastScrapingTimes == d.lastScrapingTimes && r.alerts == d.alerts
  {
    StoredRecord(0, 0, 0, d.errors, d.lastScrapingTimes, d.alerts)
  }

  /** After a first scrape that found no review, made before the monitoring
      file existed, `resetStats` as written saves that scrape's timing and
      ZERO_REVIEWS alert again instead of empty lists. */
  lemma ResetKeepsFirstScrape(duration: nat, now: int)
    ensures var r := ResetRecordAsWritten(DefaultsAfterScrape(DefaultLists([], [], []), duration, 0, None, now));
            r.lastScrapingTimes == [Timing(now, duration, 0)]
            && r.alerts == [Alert(now, ZeroReviewsKind, ZeroReviewsMessage)]
            && r.lastScrapingTimes != [] && r.alerts != []
  {
  }
}
