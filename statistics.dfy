/**
 * `generate_statistics`: the figures the eepsite report shows, computed from
 * the parsed log entries and the time of the run — the busiest visiting
 * routers, the number of `.html` requests, the most requested pages, the
 * requests per calendar month over roughly the last 56 months with their
 * average, the busiest hour of the day, and the time stamp of the report.
 */
module Statistics {
  import opened Wrappers
  import opened PyStrings
  import opened Dates
  import opened Counting
  import opened LogParser

  /** A log entry as `parse_log_line` produces it: its date is always a valid date-time. */
  type Entry = e: LogEntry | e.date.Valid() witness LogEntry("", DateTime(1, 1, 1, 0, 0, 0), "", "")

  /** Requests from the router itself are not counted as visitors. */
  const Loopback: string := "127.0.0.1"

  /** How many routers and pages the rankings keep. */
  const TopN: nat := 50

  /** Requests that every visit makes and that are not counted as page views. */
  const IgnoredRequests: set<string> := {"GET /", "GET /styles.css", "GET /favicon.png", "HEAD /"}

  /** The monthly window: 56 months approximated as 56 * 30 days. */
  const WindowDays: int := 56 * 30

  // ---------------------------------------------------------------- routers

  predicate IsRemote(e: Entry)
  {
    e.router != Loopback
  }

  function RouterOf(e: Entry): string
  {
    e.router
  }

  /** `Counter(router for entries if router != '127.0.0.1').most_common(50)`. */
  function TopRouters(entries: seq<Entry>): seq<(string, nat)>
  {
    MostCommon(Tally(Project(entries, IsRemote, RouterOf)), TopN)
  }

  /**
   * The top routers: at most 50 distinct routers other than `127.0.0.1`, each
   * with its exact number of requests, busiest first with ties in order of
   * first appearance, and no router left out that would rank ahead of one kept.
   */
  lemma TopRoutersRanked(entries: seq<Entry>)
    ensures RanksStream(TopRouters(entries), entries, IsRemote, RouterOf, TopN)
    ensures forall i :: 0 <= i < |TopRouters(entries)| ==> TopRouters(entries)[i].0 != Loopback
  {
    MostCommonOfStream(entries, IsRemote, RouterOf, TopN);
    var top := TopRouters(entries);
    forall i | 0 <= i < |top|
      ensures top[i].0 != Loopback
    {
      var t := FirstMatching(entries, IsRemote, RouterOf, top[i].0);
      assert IsRemote(entries[t]) && RouterOf(entries[t]) == top[i].0;
    }
  }

  // ------------------------------------------------------------ html pages

  predicate IsHtml(e: Entry)
  {
    Contains(e.request, ".html")
  }

  /** `[entry for entry in log_entries if ".html" in entry['request']]`. */
  function HtmlRequests(entries: seq<Entry>): seq<Entry>
  {
    Filter(entries, IsHtml)
  }

  function TotalHtmlRequests(entries: seq<Entry>): nat
  {
    |HtmlRequests(entries)|
  }

  /** The `.html` total counts exactly the entries whose request mentions `.html`. */
  lemma TotalHtmlRequestsCount(entries: seq<Entry>)
    ensures TotalHtmlRequests(entries) == CountKept(entries, IsHtml) <= |entries|
    ensures forall e :: e in HtmlRequests(entries) <==> e in entries && Contains(e.request, ".html")
  {
    FilterKept(entries, IsHtml);
  }

  // ----------------------------------------------------------------- pages

  /** `request.endswith(('.png', '.ico', '.css'))`. */
  predicate IsAsset(request: string)
  {
    EndsWith(request, ".png") || EndsWith(request, ".ico") || EndsWith(request, ".css")
  }

  predicate IsPage(e: Entry)
  {
    !(IsAsset(e.request) || e.request in IgnoredRequests)
  }

  function RequestOf(e: Entry): string
  {
    e.request
  }

  /** `Counter(request for entries if it is a page).most_common(50)`. */
  function TopPages(entries: seq<Entry>): seq<(string, nat)>
  {
    MostCommon(Tally(Project(entries, IsPage, RequestOf)), TopN)
  }

  /**
   * The top pages: at most 50 distinct requests, none an image, icon or style
   * sheet and none of the ignored requests, each with its exact number of
   * requests, most requested first with ties in order of first appearance.
   */
  lemma TopPagesRanked(entries: seq<Entry>)
    ensures RanksStream(TopPages(entries), entries, IsPage, RequestOf, TopN)
    ensures forall i :: 0 <= i < |TopPages(entries)| ==>
              !IsAsset(TopPages(entries)[i].0) && TopPages(entries)[i].0 !in IgnoredRequests
  {
    MostCommonOfStream(entries, IsPage, RequestOf, TopN);
    var top := TopPages(entries);
    forall i | 0 <= i < |top|
      ensures !IsAsset(top[i].0) && top[i].0 !in IgnoredRequests
    {
      var t := FirstMatching(entries, IsPage, RequestOf, top[i].0);
      assert IsPage(entries[t]) && RequestOf(entries[t]) == top[i].0;
    }
  }

  // ----------------------------------------------------------- month window

  /** The instant `now - timedelta(days=56 * 30)`, in seconds on the proleptic calendar. */
  function WindowStart(now: DateTime): int
    requires now.Valid()
  {
    Instant(now) - WindowDays * SecondsPerDay
  }

  /** `entry['date'] > fifty_six_months_ago`. */
  predicate InWindow(e: Entry, now: DateTime)
  {
    now.Valid() && Instant(e.date) > WindowStart(now)
  }

  /** The filter of the monthly loop, for a fixed `now`. */
  function Window(now: DateTime): Entry -> bool
  {
    (e: Entry) => InWindow(e, now)
  }

  /** `entry['date'].strftime("%Y-%m")`. */
  function MonthOf(e: Entry): string
  {
    MonthKey(e.date)
  }

  /**
   * The window test on instants is Python's comparison of `datetime` values
   * against the cut-off date-time.
   */
  lemma WindowIsLaterThanCutoff(e: Entry, now: DateTime, cutoff: DateTime)
    requires now.Valid() && cutoff.Valid()
    requires Instant(cutoff) == Instant(now) - WindowDays * SecondsPerDay
    ensures InWindow(e, now) <==> Later(e.date, cutoff)
  {
    LaterIsInstantOrder(e.date, cutoff);
  }

  /**
   * The loop of `generate_statistics` that fills `monthly_requests`: every
   * month with an entry inside the window, with the number of such entries.
   */
  method MonthlyRequests(entries: seq<Entry>, now: DateTime) returns (counts: map<string, nat>)
    requires now.Valid()
    ensures CountsOf(counts, entries, Window(now), MonthOf)
  {
    counts := map[];
    var i := 0;
    while i < |entries|
      invariant 0 <= i <= |entries|
      invariant CountsOf(counts, entries[..i], Window(now), MonthOf)
    {
      var e, before := entries[i], counts;
      if InWindow(e, now) {
        var month := MonthKey(e.date);
        var seen := if month in counts then counts[month] else 0;
        counts := counts[month := seen + 1];
      }
      MonthlyStep(before, entries, i, now, counts);
      assert CountsOf(counts, entries[..i + 1], Window(now), MonthOf);
      i := i + 1;
    }
    assert entries[..|entries|] == entries;
  }

  /** One pass of the loop: an entry in the window adds one to its month, any other leaves the counts alone. */
  lemma MonthlyStep(before: map<string, nat>, entries: seq<Entry>, i: nat, now: DateTime, after: map<string, nat>)
    requires i < |entries| && CountsOf(before, entries[..i], Window(now), MonthOf)
    requires var e := entries[i]; InWindow(e, now) ==>
               after == before[MonthKey(e.date) := (if MonthKey(e.date) in before then before[MonthKey(e.date)] else 0) + 1]
    requires !InWindow(entries[i], now) ==> after == before
    ensures CountsOf(after, entries[..i + 1], Window(now), MonthOf)
  {
    assert entries[..i + 1] == entries[..i] + [entries[i]];
    CountsOfStep(before, entries[..i], entries[i], Window(now), MonthOf);
  }

  /** A key of `keys` that is smaller, as Python orders strings, than every other. */
  method LeastKey(keys: set<string>) returns (m: string)
    requires keys != {}
    ensures m in keys
    ensures forall k :: k in keys && k != m ==> LexLess(m, k)
  {
    m :| m in keys;
    var rest := keys - {m};
    while rest != {}
      invariant rest <= keys && m in keys && m !in rest
      invariant forall k :: k in keys && k !in rest && k != m ==> LexLess(m, k)
      decreases |rest|
    {
      var k :| k in rest;
      if LexLess(k, m) {
        forall j | j in keys && j !in rest && j != m
          ensures LexLess(k, j)
        {
          LexLessTransitive(k, m, j);
        }
        m := k;
      } else if k != m {
        LexLessTotal(k, m);
      }
      rest := rest - {k};
    }
  }

  /** `sorted(counts.items())`: the items in increasing key order (keys are distinct). */
  method SortedItems(counts: map<string, nat>) returns (items: seq<(string, nat)>)
    ensures forall i, j :: 0 <= i < j < |items| ==> LexLess(items[i].0, items[j].0)
    ensures forall i :: 0 <= i < |items| ==> items[i].0 in counts && items[i].1 == counts[items[i].0]
    ensures forall k :: k in counts ==> HasKey(items, k)
  {
    items := [];
    var remaining := counts.Keys;
    while remaining != {}
      invariant remaining <= counts.Keys
      invariant forall i :: 0 <= i < |items| ==>
                  items[i].0 in counts && items[i].0 !in remaining && items[i].1 == counts[items[i].0]
      invariant forall k :: k in counts ==> k in remaining || HasKey(items, k)
      invariant forall i, j :: 0 <= i < j < |items| ==> LexLess(items[i].0, items[j].0)
      invariant forall i, k :: 0 <= i < |items| && k in remaining ==> LexLess(items[i].0, k)
      decreases |remaining|
    {
      var m := LeastKey(remaining);
      HasKeySnoc(items, (m, counts[m]));
      items := items + [(m, counts[m])];
      remaining := remaining - {m};
    }
  }

  /** Appending an item keeps every key present and adds its own. */
  lemma HasKeySnoc<K>(items: seq<(K, nat)>, x: (K, nat))
    ensures forall k :: HasKey(items, k) ==> HasKey(items + [x], k)
    ensures HasKey(items + [x], x.0)
  {
    assert (items + [x])[|items|] == x;
    forall k | HasKey(items, k)
      ensures HasKey(items + [x], k)
    {
      var q :| 0 <= q < |items| && items[q].0 == k;
      assert (items + [x])[q] == items[q];
    }
  }

  /**
   * What `sorted(monthly_requests.items())` holds: one item per month that has
   * an entry inside the window, in increasing key order, each with the number
   * of entries of that month inside the window.
   */
  ghost predicate MonthlyTable(items: seq<(string, nat)>, entries: seq<Entry>, now: DateTime)
  {
    && (forall i, j :: 0 <= i < j < |items| ==> LexLess(items[i].0, items[j].0))
    && (forall i :: 0 <= i < |items| ==>
          items[i].1 == CountMatching(entries, Window(now), MonthOf, items[i].0) && items[i].1 > 0)
    && (forall t :: 0 <= t < |entries| && InWindow(entries[t], now) ==> HasKey(items, MonthOf(entries[t])))
  }

  /**
   * The table runs in calendar order: of two entries whose months are listed,
   * the one whose month comes first in the table has the earlier month.
   */
  lemma MonthlyTableChronological(items: seq<(string, nat)>, entries: seq<Entry>, now: DateTime,
                                  i: nat, j: nat, t: nat, u: nat)
    requires MonthlyTable(items, entries, now)
    requires i < j < |items| && t < |entries| && u < |entries|
    requires MonthOf(entries[t]) == items[i].0 && MonthOf(entries[u]) == items[j].0
    ensures || entries[t].date.year < entries[u].date.year
            || (entries[t].date.year == entries[u].date.year && entries[t].date.month < entries[u].date.month)
  {
    MonthKeyOrder(entries[t].date, entries[u].date);
  }

  // -------------------------------------------------------- monthly average

  /** `sum(...)` of the counts of a list of items. */
  function SumCounts<K>(items: seq<(K, nat)>): nat
  {
    if items == [] then 0 else items[0].1 + SumCounts(items[1..])
  }

  function Keys<K>(items: seq<(K, nat)>): (ks: seq<K>)
    ensures |ks| == |items| && forall i :: 0 <= i < |items| ==> ks[i] == items[i].0
  {
    seq(|items|, i requires 0 <= i < |items| => items[i].0)
  }

  /**
   * `sum(monthly_requests.values()) / total_months if total_months > 0 else 0`,
   * on exact rationals.
   */
  function Average(items: seq<(string, nat)>): real
  {
    if |items| == 0 then 0.0 else SumCounts(items) as real / |items| as real
  }

  lemma {:induction false} SumCountsOverKeys<T, K>(items: seq<(K, nat)>, s: seq<T>, keep: T -> bool, key: T -> K)
    requires forall i :: 0 <= i < |items| ==> items[i].1 == CountMatching(s, keep, key, items[i].0)
    ensures SumCounts(items) == SumOverKeys(Keys(items), s, keep, key)
  {
    if items != [] {
      assert Keys(items)[1..] == Keys(items[1..]);
      SumCountsOverKeys(items[1..], s, keep, key);
    }
  }

  /** Each entry inside the window is counted in exactly one month. */
  lemma MonthlySum(items: seq<(string, nat)>, entries: seq<Entry>, now: DateTime)
    requires MonthlyTable(items, entries, now)
    ensures SumCounts(items) == CountKept(entries, Window(now)) <= |entries|
  {
    SumCountsOverKeys(items, entries, Window(now), MonthOf);
    var ks := Keys(items);
    forall i, j | 0 <= i < j < |ks|
      ensures ks[i] != ks[j]
    {
      if ks[i] == ks[j] {
        LexLessIrreflexive(ks[i]);
      }
    }
    forall t | 0 <= t < |entries| && Window(now)(entries[t])
      ensures MonthOf(entries[t]) in ks
    {
      assert HasKey(items, MonthOf(entries[t]));
      var q :| 0 <= q < |items| && items[q].0 == MonthOf(entries[t]);
      assert ks[q] == MonthOf(entries[t]);
    }
    SumOverKeysIsCountKept(ks, entries, Window(now), MonthOf);
  }

  /** Every month listed has at least one request. */
  lemma {:induction false} SumCountsAtLeastLength(items: seq<(string, nat)>)
    requires forall i :: 0 <= i < |items| ==> items[i].1 > 0
    ensures SumCounts(items) >= |items|
  {
    if items != [] {
      SumCountsAtLeastLength(items[1..]);
    }
  }

  /**
   * The monthly average is 0 without months; otherwise the number of requests
   * inside the window divided by the number of months, between 1 and the
   * number of entries.
   */
  lemma AverageBounds(items: seq<(string, nat)>, entries: seq<Entry>, now: DateTime)
    requires MonthlyTable(items, entries, now)
    ensures |items| == 0 ==> Average(items) == 0.0
    ensures |items| > 0 ==> Average(items) == CountKept(entries, Window(now)) as real / |items| as real
    ensures |items| > 0 ==> 1.0 <= Average(items) <= |entries| as real
  {
    MonthlySum(items, entries, now);
    SumCountsAtLeastLength(items);
    if |items| > 0 {
      var total := SumCounts(items);
      RatioBounds(total, |items|, |entries|);
      assert Average(items) == total as real / |items| as real;
      assert total == CountKept(entries, Window(now));
    }
  }

  lemma RatioBounds(total: nat, n: nat, bound: nat)
    requires 0 < n <= total <= bound
    ensures 1.0 <= total as real / n as real <= bound as real
  {
    DivBounds(total as real, n as real, bound as real);
  }

  lemma DivBounds(total: real, n: real, bound: real)
    requires 1.0 <= n <= total <= bound
    ensures 1.0 <= total / n <= bound
  {
    var q := total / n;
    assert q * n == total;
  }

  // ------------------------------------------------------------ busiest hour

  /** `[entry['date'].hour for entry in log_entries]`. */
  function Hours(entries: seq<Entry>): (hours: seq<int>)
    ensures |hours| == |entries|
    ensures forall i :: 0 <= i < |entries| ==> hours[i] == entries[i].date.hour
  {
    seq(|entries|, i requires 0 <= i < |entries| => entries[i].date.hour)
  }

  /** `Counter(hours).most_common(1)[0][0] if hours else None`. */
  function PopularHour(entries: seq<Entry>): Option<int>
  {
    if |entries| == 0 then None
    else
      var top := MostCommon(Tally(Hours(entries)), 1);
      MostCommonOfTally(Hours(entries), 1);
      assert Hours(entries)[0] in Hours(entries);
      Some(top[0].0)
  }

  /**
   * There is no busiest hour exactly when there are no entries; otherwise it
   * is an hour of the day that no other hour beats, and among hours with as
   * many requests it is the one seen first.
   */
  lemma PopularHourIsBusiest(entries: seq<Entry>)
    ensures PopularHour(entries).None? <==> |entries| == 0
    ensures PopularHour(entries).Some? ==>
      var h, hours := PopularHour(entries).value, Hours(entries);
      && 0 <= h <= 23
      && h in hours
      && forall t :: 0 <= t < |entries| ==>
           || multiset(hours)[hours[t]] < multiset(hours)[h]
           || (multiset(hours)[hours[t]] == multiset(hours)[h] && FirstIndex(hours, h) <= FirstIndex(hours, hours[t]))
  {
    if |entries| > 0 {
      var hours := Hours(entries);
      var top := MostCommon(Tally(hours), 1);
      MostCommonOfTally(hours, 1);
      assert hours[0] in hours;
      var t0 := FirstIndex(hours, top[0].0);
      assert hours[t0] == top[0].0 && entries[t0].date.Valid();
      forall t | 0 <= t < |entries|
        ensures || multiset(hours)[hours[t]] < multiset(hours)[top[0].0]
                || (&& multiset(hours)[hours[t]] == multiset(hours)[top[0].0]
                    && FirstIndex(hours, top[0].0) <= FirstIndex(hours, hours[t]))
      {
        TopOneBeats(hours, top, t);
      }
    }
  }

  /** The single most common element is seen at least as often as any other, and first among equals. */
  lemma TopOneBeats(xs: seq<int>, top: seq<(int, nat)>, t: nat)
    requires IsMostCommon(top, xs, 1) && |top| == 1 && t < |xs|
    ensures || multiset(xs)[xs[t]] < multiset(xs)[top[0].0]
            || (multiset(xs)[xs[t]] == multiset(xs)[top[0].0] && FirstIndex(xs, top[0].0) <= FirstIndex(xs, xs[t]))
  {
    var k := xs[t];
    assert k in xs;
    if k != top[0].0 {
      assert !HasKey(top, k);
      assert Precedes(top[0], (k, multiset(xs)[k]), xs);
    }
  }

  // ------------------------------------------------------------- the report

  /** The dictionary `generate_statistics` returns. */
  datatype Report = Report(
    topRouters: seq<(string, nat)>,
    totalHtmlRequests: nat,
    topPages: seq<(string, nat)>,
    averagePageLoadsPerMonth: real,
    monthlyRequests: seq<(string, nat)>,
    mostPopularTime: Option<int>,
    lastUpdate: string)

  /**
   * `generate_statistics(log_entries)` run at time `now`: each figure of the
   * report is the one specified above, the monthly table covers the window
   * ending at `now`, and the stamp is `now` as `%d/%b/%Y %H:%M:%S`.
   */
  method GenerateStatistics(entries: seq<Entry>, now: DateTime) returns (report: Report)
    requires now.Valid()
    ensures report.topRouters == TopRouters(entries)
    ensures report.totalHtmlRequests == TotalHtmlRequests(entries)
    ensures report.topPages == TopPages(entries)
    ensures MonthlyTable(report.monthlyRequests, entries, now)
    ensures report.averagePageLoadsPerMonth == Average(report.monthlyRequests)
    ensures report.mostPopularTime == PopularHour(entries)
    ensures report.lastUpdate == FormatDate(now, ' ')
  {
    var counts := MonthlyRequests(entries, now);
    var months := SortedItems(counts);
    forall t | 0 <= t < |entries| && InWindow(entries[t], now)
      ensures HasKey(months, MonthOf(entries[t]))
    {
      assert Window(now)(entries[t]);
      KeptIsCounted(entries, Window(now), MonthOf, t);
    }
    report := Report(
      TopRouters(entries),
      TotalHtmlRequests(entries),
      TopPages(entries),
      Average(months),
      months,
      PopularHour(entries),
      FormatDate(now, ' '));
  }
}
