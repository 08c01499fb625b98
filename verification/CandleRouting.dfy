/** Where the silver write path meets the partition schedule: when does a parsed candle have a
    partition on the day it is written, and a chart go in? */
module CandleRouting {
  import opened Calendar
  import opened Partitions
  import opened PartitionCoverage
  import Candles
  import YahooChart

  // ---- one timestamp ----

  lemma {:induction false} RouteIsTheOnlyOne(t: Table, ts: int)
    requires WholeMonths(t)
    ensures HasRoute(t, ts) <==> RoutesToOne(t, ts)
  {
    hide WholeMonths, Contains;
    if name :| name in t && Contains(t[name], ts) {
      forall other | other in t && Contains(t[other], ts) ensures other == name {
        RoutesToAtMostOne(t, ts, other, name);
      }
    }
  }

  /** On any day of any deployment a timestamp has a partition exactly when its month is planned:
      one of the migration's four, or reached by some run so far. */
  lemma {:induction false} RouteIffPlanned(s: Deployment, today: int, ts: int)
    requires s.Valid() && s.day <= today && MICROSECONDS_PER_DAY <= ts
    ensures HasRoute(TableOn(s, today), ts) <==> Planned(s, today, MonthOfTimestamp(ts))
  {
    hide Has, WholeMonths, TableOn, RoutesToOne, HasRoute, MonthStart, MonthOfTimestamp;
    var m := MonthOfTimestamp(ts);
    assert 12 <= m by { MonthOfTimestampIsLate(ts); }
    MonthsOn(s, today);
    TimestampInItsMonth(ts, m);
    RouteIsTheOnlyOne(TableOn(s, today), ts);
    RoutesIffMonthIsThere(TableOn(s, today), ts, m);
  }

  lemma {:induction false} MonthOfTimestampIsLate(ts: int)
    requires MICROSECONDS_PER_DAY <= ts
    ensures 12 <= MonthOfTimestamp(ts)
  {
  }

  /** Nothing ever creates a partition for the months before the migration. */
  lemma {:induction false} NoRouteBeforeFirstMonth(s: Deployment, today: int, ts: int)
    requires s.Valid() && s.day <= today && ts < MonthStart(s.FirstMonth()) * MICROSECONDS_PER_DAY
    ensures !HasRoute(TableOn(s, today), ts)
  {
    hide Has, TableOn, Name, Bounds, MonthStart, FromOrdinal;
    var t, first := TableOn(s, today), s.FirstMonth();
    MonthsOn(s, today);
    if name :| name in t && Contains(t[name], ts) {
      var k :| 12 <= k && name == Name(k) && t[name] == Bounds(k);
      assert Has(t, k) by { HasBounds(t, k); }
      PlannedNotBefore(s, today, k);
      BoundsOfMonth(k);
      MonthStartMonotone(first, k);
      assert false;
    }
  }

  lemma {:induction false} HasBounds(t: Table, k: int)
    requires 12 <= k && Name(k) in t && t[Name(k)] == Bounds(k)
    ensures Has(t, k)
  {
  }

  lemma {:induction false} PlannedNotBefore(s: Deployment, n: int, m: int)
    requires s.Valid() && Planned(s, n, m)
    ensures s.FirstMonth() <= m
  {
    hide MonthStart, FromOrdinal;
    FirstMonthStart(s);
    if i :| i <= m && m - s.monthsAhead <= i && Reached(s, n, i, m) {
      if i < s.FirstMonth() {
        MonthStartMonotone(i + 1, s.FirstMonth());
        RunDayInMonth(i);
        assert false;
      }
    }
  }

  lemma {:induction false} RunDayInMonth(i: int)
    requires 12 <= i
    ensures RunDay(i) < MonthStart(i + 1)
  {
    hide MonthStart;
    MonthStartStep(i);
  }

  // ---- a whole chart ----

  /** As the deployment runs: a reach of three months, and no three consecutive runs missed. */
  ghost predicate WellRun(s: Deployment) {
    s.Valid() && s.monthsAhead == 3 && forall a :: s.FirstMonth() < a ==> RunAmong(s, a, 3)
  }

  /** No complete bar lies after `today`. */
  predicate UpTo(timestamps: seq<int>, quotes: seq<YahooChart.Arrays>, today: int) {
    forall i :: 0 <= i < |timestamps| && quotes != [] && YahooChart.Complete(quotes[0], i) ==>
      Timestamp(timestamps[i]) < (today + 1) * MICROSECONDS_PER_DAY
  }

  /** No complete bar lies before the month of the migration. */
  predicate ReachesBackTo(timestamps: seq<int>, quotes: seq<YahooChart.Arrays>, first: int)
    requires 12 <= first
  {
    forall i :: 0 <= i < |timestamps| && quotes != [] && YahooChart.Complete(quotes[0], i) ==>
      MonthStart(first) * MICROSECONDS_PER_DAY <= Timestamp(timestamps[i])
  }

  /** A well-run deployment has a partition for a time up to the end of `today` if and only if
      the time is not before the month of the migration. */
  lemma {:induction false} RouteIffNotBefore(s: Deployment, today: int, ts: int)
    requires WellRun(s) && s.day <= today && ts < (today + 1) * MICROSECONDS_PER_DAY
    ensures HasRoute(TableOn(s, today), ts) <==> MonthStart(s.FirstMonth()) * MICROSECONDS_PER_DAY <= ts
    ensures RoutesToOne(TableOn(s, today), ts) <==> HasRoute(TableOn(s, today), ts)
  {
    hide RunAmong, RoutesToOne, TableOn, MonthStart, HasRoute;
    MonthsOn(s, today);
    RouteIsTheOnlyOne(TableOn(s, today), ts);
    if MonthStart(s.FirstMonth()) * MICROSECONDS_PER_DAY <= ts {
      Tolerance(s);
      assert NeverLapses(s, today);
    } else {
      NoRouteBeforeFirstMonth(s, today, ts);
    }
  }

  /** In a well-run deployment every candle of a chart has exactly one partition on `today` if
      and only if the chart's complete bars reach back no further than the month of the migration. */
  lemma {:induction false} ParsedCandlesHaveAPartitionIff(s: Deployment, today: int, timestamps: seq<int>,
                                                          quotes: seq<YahooChart.Arrays>)
    requires WellRun(s) && s.day <= today && UpTo(timestamps, quotes, today)
    ensures (forall c :: c in YahooChart.Parsed(timestamps, quotes) ==> RoutesToOne(TableOn(s, today), c.openTime))
            <==> ReachesBackTo(timestamps, quotes, s.FirstMonth())
  {
    hide WellRun, RoutesToOne, TableOn, YahooChart.Parsed, YahooChart.Complete, MonthStart;
    assert s.Valid() by { WellRunIsValid(s); }
    forall c | c in YahooChart.Parsed(timestamps, quotes)
      ensures ReachesBackTo(timestamps, quotes, s.FirstMonth()) ==> RoutesToOne(TableOn(s, today), c.openTime)
    {
      YahooChart.ParsedMembers(timestamps, quotes, c);
      RouteIffNotBefore(s, today, c.openTime);
    }
    forall i | 0 <= i < |timestamps| && quotes != [] && YahooChart.Complete(quotes[0], i)
      ensures YahooChart.CandleAt(timestamps, quotes[0], i) in YahooChart.Parsed(timestamps, quotes)
      ensures RoutesToOne(TableOn(s, today), Timestamp(timestamps[i])) ==>
                MonthStart(s.FirstMonth()) * MICROSECONDS_PER_DAY <= Timestamp(timestamps[i])
    {
      YahooChart.ParsedMembers(timestamps, quotes, YahooChart.CandleAt(timestamps, quotes[0], i));
      RouteIffNotBefore(s, today, Timestamp(timestamps[i]));
    }
  }

  lemma {:induction false} WellRunIsValid(s: Deployment)
    requires WellRun(s)
    ensures s.Valid()
  {
  }

  /** The upsert of a chart with increasing timestamps goes through in a well-run deployment if
      and only if its complete bars reach back no further than the month of the migration. A single
      earlier bar, such as a default chart of six months holds soon after the migration, loses
      them all. */
  lemma {:induction false} ChartAcceptedIff(s: Deployment, today: int, timestamps: seq<int>,
                                            quotes: seq<YahooChart.Arrays>, instrument: int, source: int,
                                            resolution: string)
    requires WellRun(s) && s.day <= today && UpTo(timestamps, quotes, today) && YahooChart.Increasing(timestamps)
    ensures var records := YahooChart.RecordsOf(YahooChart.Parsed(timestamps, quotes), instrument, source, resolution);
            Candles.Accepted(TableOn(s, today), records, Candles.BATCH_SIZE)
            <==> ReachesBackTo(timestamps, quotes, s.FirstMonth())
  {
    hide WellRun, RoutesToOne, HasRoute, TableOn, YahooChart.Parsed, ReachesBackTo, MonthStart;
    assert s.Valid() by { WellRunIsValid(s); }
    var candles := YahooChart.Parsed(timestamps, quotes);
    YahooChart.IncreasingGivesDistinctKeys(timestamps, quotes, instrument, source, resolution);
    ParsedCandlesHaveAPartitionIff(s, today, timestamps, quotes);
    MonthsOn(s, today);
    forall i | 0 <= i < |candles|
      ensures HasRoute(TableOn(s, today), candles[i].openTime) <==> RoutesToOne(TableOn(s, today), candles[i].openTime)
    {
      RouteIsTheOnlyOne(TableOn(s, today), candles[i].openTime);
    }
    assert forall c :: c in candles ==> exists i :: 0 <= i < |candles| && candles[i] == c;
  }

  /** If three consecutive runs are missed after the first month, then on the first day of the month
      that follows, a complete bar stamped with the start of that day is parsed but has no partition. */
  lemma {:induction false} ParsedCandleWithoutPartition(s: Deployment, a: int, timestamps: seq<int>,
                                                        quotes: seq<YahooChart.Arrays>)
    requires s.Valid() && s.monthsAhead == 3 && s.FirstMonth() < a && !RunAmong(s, a, 3)
    requires timestamps != [] && quotes != [] && YahooChart.Complete(quotes[0], 0)
    requires Timestamp(timestamps[0]) == MonthStart(a + 3) * MICROSECONDS_PER_DAY
    ensures s.day <= MonthStart(a + 3)
    ensures var c := YahooChart.CandleAt(timestamps, quotes[0], 0);
            c in YahooChart.Parsed(timestamps, quotes)
              && !RoutesToOne(TableOn(s, MonthStart(a + 3)), c.openTime)
  {
    hide RunAmong, RunBefore, RoutesToOne, TableOn, YahooChart.Parsed, YahooChart.Complete, MonthStart;
    assert a + 3 - 3 == a;
    RunBeforeIsRunAmong(s, a + 3);
    UncoveredDay(s, a + 3);
    YahooChart.ParsedMembers(timestamps, quotes, YahooChart.CandleAt(timestamps, quotes[0], 0));
  }
}
