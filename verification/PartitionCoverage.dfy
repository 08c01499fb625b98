/** The monthly schedule: when is there a partition for every timestamp on every day? */
module PartitionCoverage {
  import opened Calendar
  import opened Partitions

  /** A deployment: the day of the migration, which of the runs scheduled for the 25th (one a
      month, at midnight) took place, and how many months ahead a run reaches. */
  datatype Deployment = Deployment(day: int, ran: int -> bool, monthsAhead: int) {

    predicate Valid() {
      1 <= day
    }

    function FirstMonth(): (k: int)
      requires Valid()
      ensures 12 <= k
    {
      MonthOf(FromOrdinal(day))
    }
  }

  /** The day number of the 25th of month `i`. */
  function RunDay(i: int): int
    requires 12 <= i
  {
    MonthStart(i) + 24
  }

  /** The run of month `i` was due after the migration and took place. */
  predicate Ran(s: Deployment, i: int) {
    12 <= i && s.day < RunDay(i) && s.ran(i)
  }

  /** The partitions on day `n`, played forward day by day. */
  function TableOn(s: Deployment, n: int): Table
    requires s.Valid() && s.day <= n
    decreases n
  {
    if n == s.day then Migrated(FromOrdinal(n))
    else
      var t := TableOn(s, n - 1);
      var today := FromOrdinal(n);
      if today.day == 25 && s.ran(MonthOf(today)) then AfterRun(t, today, s.monthsAhead) else t
  }

  predicate Reached(s: Deployment, n: int, i: int, m: int) {
    Ran(s, i) && RunDay(i) <= n && i <= m <= i + s.monthsAhead
  }

  predicate Planned(s: Deployment, n: int, m: int)
    requires s.Valid()
  {
    || s.FirstMonth() <= m <= s.FirstMonth() + 3
    || exists i :: i <= m && m - s.monthsAhead <= i && Reached(s, n, i, m)
  }

  lemma {:induction false} RunDayOfMonth(n: int)
    requires 1 <= n
    ensures FromOrdinal(n).day == 25 <==> n == RunDay(MonthOf(FromOrdinal(n)))
    ensures forall i :: 12 <= i && n == RunDay(i) ==> MonthOf(FromOrdinal(n)) == i
  {
    OrdinalOfDate(n);
    DateInItsMonth(FromOrdinal(n));
    forall i | 12 <= i && n == RunDay(i) ensures MonthOf(FromOrdinal(n)) == i {
      MonthStartMonotone(i, i + 1);
      MonthOfOrdinal(n, i);
    }
  }

  lemma {:induction false} PlannedStep(s: Deployment, n: int, m: int)
    requires s.Valid() && s.day < n
    ensures var today := FromOrdinal(n);
            Planned(s, n, m) <==>
            || Planned(s, n - 1, m)
            || (today.day == 25 && s.ran(MonthOf(today)) && MonthOf(today) <= m <= MonthOf(today) + s.monthsAhead)
  {
    hide MonthOf, FromOrdinal, MonthStart;
    var today := FromOrdinal(n);
    RunDayOfMonth(n);
    var before := n - 1;
    if i :| i <= m && m - s.monthsAhead <= i && Reached(s, before, i, m) {
      assert Reached(s, n, i, m);
    }
    if i :| i <= m && m - s.monthsAhead <= i && Reached(s, n, i, m) {
      assert RunDay(i) == n || Reached(s, before, i, m);
    }
    if today.day == 25 && s.ran(MonthOf(today)) && MonthOf(today) <= m <= MonthOf(today) + s.monthsAhead {
      assert Reached(s, n, MonthOf(today), m);
    }
  }

  /** On any day, the months with a partition are the migration's four and those some run so
      far has reached. */
  lemma {:induction false} MonthsOn(s: Deployment, n: int)
    requires s.Valid() && s.day <= n
    ensures WholeMonths(TableOn(s, n))
    ensures forall m :: Has(TableOn(s, n), m) <==> Planned(s, n, m)
    decreases n
  {
    hide Has, WholeMonths, Ensured, FromOrdinal, Planned;
    if n == s.day {
      NoPartitions();
      EnsuredMonths(map[], s.FirstMonth(), 4);
      forall m ensures Planned(s, n, m) <==> s.FirstMonth() <= m <= s.FirstMonth() + 3 {
        PlannedAtFirst(s, m);
      }
    } else {
      MonthsOn(s, n - 1);
      var today := FromOrdinal(n);
      EnsuredMonths(TableOn(s, n - 1), MonthOf(today), Iterations(s.monthsAhead));
      forall m ensures Has(TableOn(s, n), m) <==> Planned(s, n, m) {
        PlannedStep(s, n, m);
      }
    }
  }

  lemma {:induction false} PlannedAtFirst(s: Deployment, m: int)
    requires s.Valid()
    ensures Planned(s, s.day, m) <==> s.FirstMonth() <= m <= s.FirstMonth() + 3
  {
  }

  // ---- coverage ----

  /** Exactly one partition takes the timestamp. */
  ghost predicate RoutesToOne(t: Table, ts: int) {
    exists name ::
      && name in t && Contains(t[name], ts)
      && forall other :: other in t && Contains(t[other], ts) ==> other == name
  }

  lemma {:induction false} RoutesIffMonthIsThere(t: Table, ts: int, m: int)
    requires WholeMonths(t) && 12 <= m
    requires MonthStart(m) * MICROSECONDS_PER_DAY <= ts < MonthStart(m + 1) * MICROSECONDS_PER_DAY
    ensures RoutesToOne(t, ts) <==> Has(t, m)
  {
    hide Name, Bounds, MonthStart, Ordinal;
    BoundsOfMonth(m);
    assert Contains(Bounds(m), ts);
    if RoutesToOne(t, ts) {
      var name :| name in t && Contains(t[name], ts);
      var j :| 12 <= j && name == Name(j) && t[name] == Bounds(j);
      BoundsOfMonth(j);
      assert Overlap(Bounds(j), Bounds(m));
      MonthsOverlap(j, m);
    }
    if Has(t, m) {
      forall other | other in t && Contains(t[other], ts) ensures other == Name(m) {
        RoutesToAtMostOne(t, ts, other, Name(m));
      }
    }
  }

  /** On every day up to `horizon`, every timestamp from the first covered month to the end of
      that day has exactly one partition. */
  ghost predicate NeverLapses(s: Deployment, horizon: int)
    requires s.Valid()
  {
    forall n, ts ::
      && s.day <= n <= horizon
      && MonthStart(s.FirstMonth()) * MICROSECONDS_PER_DAY <= ts < (n + 1) * MICROSECONDS_PER_DAY
      ==> RoutesToOne(TableOn(s, n), ts)
  }

  /** One of the `monthsAhead` runs before month `j` took place. */
  ghost predicate RunBefore(s: Deployment, j: int) {
    exists i :: j - s.monthsAhead <= i < j && Ran(s, i)
  }

  /** The month whose partition a timestamp needs. */
  function MonthOfTimestamp(ts: int): int
    requires MICROSECONDS_PER_DAY <= ts
  {
    MonthOf(FromOrdinal(ts / MICROSECONDS_PER_DAY))
  }

  lemma {:induction false} TimestampInItsMonth(ts: int, m: int)
    requires MICROSECONDS_PER_DAY <= ts && 12 <= m
    ensures MonthOfTimestamp(ts) == m <==>
            MonthStart(m) * MICROSECONDS_PER_DAY <= ts < MonthStart(m + 1) * MICROSECONDS_PER_DAY
  {
    hide MonthStart, FromOrdinal;
    MonthOfOrdinal(ts / MICROSECONDS_PER_DAY, m);
  }

  /** Month `j` has its partition on its first day exactly when the migration reached it or a
      run close enough before it took place. */
  lemma {:induction false} CoveredOnFirstDay(s: Deployment, j: int)
    requires s.Valid() && s.FirstMonth() <= j && s.day <= MonthStart(j)
    ensures Has(TableOn(s, MonthStart(j)), j) <==> j <= s.FirstMonth() + 3 || RunBefore(s, j)
  {
    hide Has, TableOn, Name, Bounds, FromOrdinal, MonthStart;
    var n := MonthStart(j);
    MonthsOn(s, n);
    if RunBefore(s, j) {
      var i :| j - s.monthsAhead <= i < j && Ran(s, i);
      MonthStartMonotone(i, j);
      assert Reached(s, n, i, j);
    }
    if i :| i <= j && j - s.monthsAhead <= i && Reached(s, n, i, j) {
      assert i != j;
    }
  }

  /** A month that is there on one day is there on every later day. */
  lemma {:induction false} PartitionsStay(s: Deployment, n: int, later: int, m: int)
    requires s.Valid() && s.day <= n <= later && Has(TableOn(s, n), m)
    ensures Has(TableOn(s, later), m)
  {
    hide Has, TableOn, RunDay, FromOrdinal;
    MonthsOn(s, n);
    MonthsOn(s, later);
    if i :| i <= m && m - s.monthsAhead <= i && Reached(s, n, i, m) {
      assert Reached(s, later, i, m);
    }
  }

  lemma {:induction false} FirstMonthStart(s: Deployment)
    requires s.Valid()
    ensures MonthStart(s.FirstMonth()) <= s.day < MonthStart(s.FirstMonth() + 1)
  {
    hide MonthStart, FromOrdinal;
    MonthOfOrdinal(s.day, s.FirstMonth());
  }

  lemma {:induction false} CoveredDay(s: Deployment, n: int, ts: int)
    requires s.Valid() && s.day <= n
    requires MonthStart(s.FirstMonth()) * MICROSECONDS_PER_DAY <= ts < (n + 1) * MICROSECONDS_PER_DAY
    requires forall j :: s.FirstMonth() + 3 < j && MonthStart(j) <= n ==> RunBefore(s, j)
    ensures RoutesToOne(TableOn(s, n), ts)
  {
    hide Has, WholeMonths, TableOn, RoutesToOne, RunBefore, MonthStart, FromOrdinal;
    var first, m := s.FirstMonth(), MonthOfTimestamp(ts);
    TimestampInItsMonth(ts, m);
    FirstMonthStart(s);
    MonthsOn(s, n);
    if m < first {
      MonthStartMonotone(m + 1, first);
      assert false;
    } else if m <= first + 3 {
      assert Planned(s, n, m);
    } else {
      MonthStartMonotone(first + 1, m);
      CoveredOnFirstDay(s, m);
      PartitionsStay(s, MonthStart(m), n, m);
    }
    RoutesIffMonthIsThere(TableOn(s, n), ts, m);
  }

  lemma {:induction false} UncoveredDay(s: Deployment, j: int)
    requires s.Valid() && s.FirstMonth() + 3 < j && !RunBefore(s, j)
    ensures s.day <= MonthStart(j)
    ensures !RoutesToOne(TableOn(s, MonthStart(j)), MonthStart(j) * MICROSECONDS_PER_DAY)
  {
    hide Has, WholeMonths, TableOn, RoutesToOne, RunBefore, MonthStart;
    FirstMonthStart(s);
    MonthStartMonotone(s.FirstMonth() + 1, j);
    MonthStartMonotone(j, j + 1);
    MonthsOn(s, MonthStart(j));
    CoveredOnFirstDay(s, j);
    RoutesIffMonthIsThere(TableOn(s, MonthStart(j)), MonthStart(j) * MICROSECONDS_PER_DAY, j);
  }

  /** Coverage never lapses exactly when every month past the migration's reach is preceded by
      a run among the `monthsAhead` months before it. */
  lemma {:induction false} CoverageIff(s: Deployment, horizon: int)
    requires s.Valid()
    ensures NeverLapses(s, horizon) <==>
            forall j :: s.FirstMonth() + 3 < j && MonthStart(j) <= horizon ==> RunBefore(s, j)
  {
    hide TableOn, RoutesToOne, RunBefore, MonthStart;
    FirstMonthStart(s);
    if forall j :: s.FirstMonth() + 3 < j && MonthStart(j) <= horizon ==> RunBefore(s, j) {
      forall n, ts |
        && s.day <= n <= horizon
        && MonthStart(s.FirstMonth()) * MICROSECONDS_PER_DAY <= ts < (n + 1) * MICROSECONDS_PER_DAY
        ensures RoutesToOne(TableOn(s, n), ts)
      {
        CoveredDay(s, n, ts);
      }
    } else {
      var j :| s.FirstMonth() + 3 < j && MonthStart(j) <= horizon && !RunBefore(s, j);
      UncoveredDay(s, j);
      MonthStartMonotone(s.FirstMonth(), j);
    }
  }

  // ---- the tolerance, in consecutive missed runs ----

  /** Some run of the months `a`, ..., `a + k - 1` took place. */
  ghost predicate RunAmong(s: Deployment, a: int, k: int) {
    exists i :: a <= i < a + k && s.ran(i)
  }

  lemma {:induction false} RunsAfterFirstMonth(s: Deployment, i: int)
    requires s.Valid() && s.FirstMonth() < i
    ensures Ran(s, i) <==> s.ran(i)
  {
    hide MonthStart, FromOrdinal;
    FirstMonthStart(s);
    MonthStartMonotone(s.FirstMonth() + 1, i);
  }

  /** With a reach of `k <= 3` months, coverage holds for ever exactly when no `k` consecutive
      runs from the migration's reach on are missed: `k - 1` misses are tolerated, `k` are not. */
  lemma {:induction false} Tolerance(s: Deployment)
    requires s.Valid() && 1 <= s.monthsAhead <= 3
    ensures (forall horizon :: NeverLapses(s, horizon)) <==>
            forall a :: s.FirstMonth() + 3 - s.monthsAhead < a ==> RunAmong(s, a, s.monthsAhead)
  {
    hide NeverLapses, RunBefore, MonthStart, FromOrdinal;
    var k, first := s.monthsAhead, s.FirstMonth();
    forall j | first + 3 < j ensures RunBefore(s, j) <==> RunAmong(s, j - k, k) {
      RunBeforeIsRunAmong(s, j);
    }
    if forall a :: first + 3 - k < a ==> RunAmong(s, a, k) {
      forall horizon ensures NeverLapses(s, horizon) {
        forall j | first + 3 < j ensures RunBefore(s, j) {
          assert RunAmong(s, j - k, k);
        }
        CoverageIff(s, horizon);
      }
    } else {
      var a :| first + 3 - k < a && !RunAmong(s, a, k);
      assert a + k - k == a;
      assert !RunBefore(s, a + k);
      CoverageIff(s, MonthStart(a + k));
    }
  }

  lemma {:induction false} RunBeforeIsRunAmong(s: Deployment, j: int)
    requires s.Valid() && 1 <= s.monthsAhead <= 3 && s.FirstMonth() + 3 < j
    ensures RunBefore(s, j) <==> RunAmong(s, j - s.monthsAhead, s.monthsAhead)
  {
    hide Ran, FromOrdinal;
    forall i | j - s.monthsAhead <= i < j ensures Ran(s, i) <==> s.ran(i) {
      RunsAfterFirstMonth(s, i);
    }
  }

  /** A longer reach does not buy more missed runs at the start: the migration itself covers
      only three months ahead, so three misses after a late deployment leave a day uncovered. */
  lemma {:induction false} LongerReachStartsNoLater(s: Deployment)
    requires s.Valid() && RunDay(s.FirstMonth()) <= s.day
    requires forall i :: s.ran(i) <==> !(s.FirstMonth() < i <= s.FirstMonth() + 3)
    ensures !NeverLapses(s, MonthStart(s.FirstMonth() + 4))
  {
    hide NeverLapses, MonthStart, FromOrdinal;
    var j := s.FirstMonth() + 4;
    if RunBefore(s, j) {
      var i :| j - s.monthsAhead <= i < j && Ran(s, i);
      MonthStartMonotone(i, s.FirstMonth());
    }
    CoverageIff(s, MonthStart(j));
  }
}
