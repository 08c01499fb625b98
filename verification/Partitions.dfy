/** The monthly partitions of `fact_price_candle`: the migration that creates the first four,
    the job that keeps the coming ones in place, and the set of ranges they maintain. */
module Partitions {
  import opened Calendar

  /** `FOR VALUES FROM (from) TO (to)`: midnight of `from` up to, not including, midnight of `to`. */
  datatype Range = Range(from: Civil, to: Civil)

  /** The partitions attached to the parent table, by relation name. */
  type Table = map<string, Range>

  const MICROSECONDS_PER_DAY: int := 86_400_000_000

  /** Timestamps count microseconds from the midnight that begins day number 0. */
  function Midnight(d: Civil): int {
    Ordinal(d) * MICROSECONDS_PER_DAY
  }

  predicate Contains(r: Range, ts: int) {
    Midnight(r.from) <= ts < Midnight(r.to)
  }

  /** Some partition takes the timestamp; without one Postgres refuses the row. */
  predicate HasRoute(t: Table, ts: int) {
    exists name :: name in t && Contains(t[name], ts)
  }

  /** The day number of 1 January 1970, from which Unix times count seconds. */
  const EPOCH_DAY: int := 719_163
  const SECONDS_PER_DAY: int := 86_400

  /** `datetime.fromtimestamp(unix, tz=utc)`. */
  function Timestamp(unix: int): int {
    (EPOCH_DAY * SECONDS_PER_DAY + unix) * 1_000_000
  }

  /** Unix times count the seconds since 1 January 1970: a whole number of days for a midnight. */
  lemma {:induction false} TimestampOfMidnight(epoch: Civil, d: Civil, seconds: int)
    requires epoch.year == 1970 && epoch.month == 1 && epoch.day == 1
    ensures Timestamp((Ordinal(d) - Ordinal(epoch)) * 86_400 + seconds)
            == Ordinal(d) * 86_400_000_000 + seconds * 1_000_000
  {
    hide Ordinal;
    OrdinalClosedForm(epoch);
  }

  predicate Overlap(r: Range, s: Range) {
    Ordinal(r.from) < Ordinal(s.to) && Ordinal(s.from) < Ordinal(r.to)
  }

  function PartitionName(start: Civil): string {
    "fact_price_candle_" + YearMonth(start, '_')
  }

  function Name(k: int): string
    requires 12 <= k
  {
    PartitionName(FirstDay(k))
  }

  function Bounds(k: int): Range
    requires 12 <= k
  {
    Range(FirstDay(k), FirstDay(k + 1))
  }

  /** Month `k` has its partition. */
  predicate Has(t: Table, k: int) {
    12 <= k && Name(k) in t && t[Name(k)] == Bounds(k)
  }

  /** Every partition is one whole month, under that month's name. */
  ghost predicate WholeMonths(t: Table) {
    forall name :: name in t ==> exists k :: 12 <= k && name == Name(k) && t[name] == Bounds(k)
  }

  lemma {:induction false} NameDeterminesMonth(j: int, k: int)
    requires 12 <= j && 12 <= k && Name(j) == Name(k)
    ensures j == k
  {
    var s, t := YearMonth(FirstDay(j), '_'), YearMonth(FirstDay(k), '_');
    assert Name(j)[18..] == s && Name(k)[18..] == t;
    YearMonthInjective(FirstDay(j), FirstDay(k), '_');
  }

  lemma {:induction false} BoundsOfMonth(k: int)
    requires 12 <= k
    ensures Ordinal(Bounds(k).from) == MonthStart(k)
    ensures Ordinal(Bounds(k).to) == MonthStart(k + 1)
    ensures Ordinal(Bounds(k).from) < Ordinal(Bounds(k).to)
  {
    hide MonthStart, MonthLength;
    MonthStartMonotone(k, k + 1);
  }

  lemma {:induction false} MonthsOverlap(j: int, k: int)
    requires 12 <= j && 12 <= k
    ensures Overlap(Bounds(j), Bounds(k)) <==> j == k
  {
    hide Bounds, Ordinal, MonthStart;
    BoundsOfMonth(j);
    BoundsOfMonth(k);
    if j < k {
      MonthStartMonotone(j + 1, k);
    } else if k < j {
      MonthStartMonotone(k + 1, j);
    }
  }

  /** The check by name alone is enough: a month whose name is free overlaps no partition. */
  lemma {:induction false} FreeNameMeansFreeRange(t: Table, k: int, name: string)
    requires WholeMonths(t) && 12 <= k && Name(k) !in t && name in t
    ensures !Overlap(t[name], Bounds(k))
  {
    hide Name, Bounds;
    var j :| 12 <= j && name == Name(j) && t[name] == Bounds(j);
    MonthsOverlap(j, k);
  }

  // ---- what a run does to the set of partitions ----

  /** Month `k` is created if its name is free. */
  function WithMonth(t: Table, k: int): Table
    requires 12 <= k
  {
    if Name(k) in t then t else t[Name(k) := Bounds(k)]
  }

  /** Months `k`, `k + 1`, ..., `k + n - 1` in turn. */
  function Ensured(t: Table, k: int, n: nat): Table
    requires 12 <= k
  {
    if n == 0 then t else WithMonth(Ensured(t, k, n - 1), k + n - 1)
  }

  /** `range(months_ahead + 1)` has this many elements. */
  function Iterations(monthsAhead: int): nat {
    if monthsAhead < 0 then 0 else monthsAhead + 1
  }

  function AfterRun(t: Table, today: Civil, monthsAhead: int): Table {
    Ensured(t, MonthOf(today), Iterations(monthsAhead))
  }

  function Migrated(today: Civil): Table {
    Ensured(map[], MonthOf(today), 4)
  }

  lemma {:induction false} WithMonthHas(t: Table, m: int, j: int)
    requires 12 <= m && WholeMonths(t)
    ensures Has(WithMonth(t, m), j) <==> Has(t, j) || j == m
  {
    hide Name, Bounds;
    if Name(m) in t {
      var i :| 12 <= i && Name(m) == Name(i) && t[Name(m)] == Bounds(i);
      NameDeterminesMonth(m, i);
    } else if 12 <= j && Name(j) == Name(m) {
      NameDeterminesMonth(j, m);
    }
  }

  lemma {:induction false} WithMonthWhole(t: Table, m: int)
    requires 12 <= m && WholeMonths(t)
    ensures WholeMonths(WithMonth(t, m))
    ensures forall name :: name in t ==> name in WithMonth(t, m) && WithMonth(t, m)[name] == t[name]
  {
    hide Name, Bounds;
    var u := WithMonth(t, m);
    forall name | name in u ensures exists k :: 12 <= k && name == Name(k) && u[name] == Bounds(k) {
      if name in t {
        var k :| 12 <= k && name == Name(k) && t[name] == Bounds(k);
      } else {
        assert name == Name(m) && u[name] == Bounds(m);
      }
    }
  }

  /** A run adds exactly the months it names and keeps every partition there was. */
  lemma {:induction false} EnsuredMonths(t: Table, k: int, n: nat)
    requires 12 <= k && WholeMonths(t)
    ensures WholeMonths(Ensured(t, k, n))
    ensures forall j :: Has(Ensured(t, k, n), j) <==> Has(t, j) || k <= j < k + n
    ensures forall name :: name in t ==> name in Ensured(t, k, n) && Ensured(t, k, n)[name] == t[name]
  {
    hide Name, Bounds, WithMonth, Has;
    if n != 0 {
      EnsuredMonths(t, k, n - 1);
      var m := k + n - 1;
      var u := Ensured(t, k, n - 1);
      assert Ensured(t, k, n) == WithMonth(u, m);
      WithMonthWhole(u, m);
      forall j ensures Has(Ensured(t, k, n), j) <==> Has(t, j) || k <= j < k + n {
        WithMonthHas(u, m, j);
      }
    }
  }

  lemma {:induction false} EnsuredIsIdentity(t: Table, k: int, n: nat)
    requires 12 <= k && forall j :: k <= j < k + n ==> Has(t, j)
    ensures Ensured(t, k, n) == t
  {
    hide Name, Bounds;
    if n != 0 {
      EnsuredIsIdentity(t, k, n - 1);
      assert Has(t, k + n - 1);
    }
  }

  /** Repeating a run changes nothing. */
  lemma {:induction false} RunIdempotent(t: Table, today: Civil, monthsAhead: int)
    requires WholeMonths(t)
    ensures AfterRun(AfterRun(t, today, monthsAhead), today, monthsAhead) == AfterRun(t, today, monthsAhead)
  {
    EnsuredMonths(t, MonthOf(today), Iterations(monthsAhead));
    EnsuredIsIdentity(AfterRun(t, today, monthsAhead), MonthOf(today), Iterations(monthsAhead));
  }

  /** At most one partition takes a timestamp. */
  lemma {:induction false} RoutesToAtMostOne(t: Table, ts: int, name: string, other: string)
    requires WholeMonths(t) && name in t && other in t
    requires Contains(t[name], ts) && Contains(t[other], ts)
    ensures name == other
  {
    hide Name, Bounds;
    var j :| 12 <= j && name == Name(j) && t[name] == Bounds(j);
    var k :| 12 <= k && other == Name(k) && t[other] == Bounds(k);
    MonthsOverlap(j, k);
  }

  /** Partitions under different names do not overlap. */
  lemma {:induction false} PairwiseDisjoint(t: Table, name: string, other: string)
    requires WholeMonths(t) && name in t && other in t && name != other
    ensures !Overlap(t[name], t[other])
  {
    hide Name, Bounds;
    var j :| 12 <= j && name == Name(j) && t[name] == Bounds(j);
    var k :| 12 <= k && other == Name(k) && t[other] == Bounds(k);
    MonthsOverlap(j, k);
  }

  /** The name of a month's partition reads `fact_price_candle_`, its year, `_`, and its month. */
  lemma {:induction false} NameReads(k: int)
    requires 12 <= k
    ensures var name := Name(k);
            var n := |name|;
            && 25 <= n && name[..18] == "fact_price_candle_" && name[n - 3] == '_'
            && IsNumeral(name[18..n - 3]) && IsNumeral(name[n - 2..])
            && 1 <= ValueOf(name[n - 2..]) <= 12
            && 12 * ValueOf(name[18..n - 3]) + ValueOf(name[n - 2..]) - 1 == k
            && (k < 120_000 ==> n == 25)
  {
    hide YearMonth, IsNumeral, ValueOf;
    var d := FirstDay(k);
    var s, name := YearMonth(d, '_'), Name(k);
    YearMonthReads(d, '_');
    assert name[18..|name| - 3] == s[..|s| - 3] && name[|name| - 2..] == s[|s| - 2..];
  }

  lemma {:induction false} NoPartitions()
    ensures WholeMonths(map[]) && forall k :: !Has(map[], k)
  {
  }

  datatype Run = Run(today: Civil, monthsAhead: int)

  /** The table after the migration and any runs, on any dates, in any order. */
  function Maintained(deployed: Civil, runs: seq<Run>): Table {
    if runs == [] then Migrated(deployed)
    else
      var last := runs[|runs| - 1];
      AfterRun(Maintained(deployed, runs[..|runs| - 1]), last.today, last.monthsAhead)
  }

  predicate RunNames(r: Run, k: int) {
    MonthOf(r.today) <= k <= MonthOf(r.today) + r.monthsAhead
  }

  predicate Named(deployed: Civil, runs: seq<Run>, k: int) {
    || MonthOf(deployed) <= k <= MonthOf(deployed) + 3
    || exists i :: 0 <= i < |runs| && RunNames(runs[i], k)
  }

  lemma {:induction false} NamedStep(deployed: Civil, runs: seq<Run>, k: int)
    requires runs != []
    ensures Named(deployed, runs, k)
            <==> Named(deployed, runs[..|runs| - 1], k) || RunNames(runs[|runs| - 1], k)
  {
    var before := runs[..|runs| - 1];
    if i :| 0 <= i < |before| && RunNames(before[i], k) {
      assert RunNames(runs[i], k);
    }
    if i :| 0 <= i < |runs| && RunNames(runs[i], k) {
      assert i < |before| ==> RunNames(before[i], k);
    }
  }

  /** After any history the partitions are whole months, and a month is there exactly when the
      migration or some run named it. */
  lemma {:induction false} MaintainedMonths(deployed: Civil, runs: seq<Run>)
    ensures WholeMonths(Maintained(deployed, runs))
    ensures forall k :: Has(Maintained(deployed, runs), k) <==> Named(deployed, runs, k)
  {
    hide Has, WholeMonths, Ensured;
    if runs == [] {
      NoPartitions();
      EnsuredMonths(map[], MonthOf(deployed), 4);
    } else {
      var before, last := runs[..|runs| - 1], runs[|runs| - 1];
      MaintainedMonths(deployed, before);
      var t := Maintained(deployed, before);
      EnsuredMonths(t, MonthOf(last.today), Iterations(last.monthsAhead));
      forall k ensures Has(Maintained(deployed, runs), k) <==> Named(deployed, runs, k) {
        NamedStep(deployed, runs, k);
      }
    }
  }

  // ---- the migration and the maintenance job ----

  datatype Ddl =
    | DropParent
    | CreateParent
    | CreateIfNotExists(name: string, range: Range)

  /** The statement for month `k`. */
  function CreateMonthStatement(k: int): Ddl
    requires 12 <= k
  {
    CreateIfNotExists(Name(k), Bounds(k))
  }

  function Executed(t: Table, statement: Ddl): Table {
    match statement
    case DropParent => map[]
    case CreateParent => t
    case CreateIfNotExists(name, range) => if name in t then t else t[name := range]
  }

  lemma {:induction false} MigratedMonths(today: Civil)
    ensures Migrated(today) == Ensured(map[], MonthOf(today), 4)
  {
    hide Ensured;
  }

  lemma {:induction false} StatementOfMonth(k: int)
    requires 12 <= k
    ensures CreateMonthStatement(k)
            == CreateIfNotExists(PartitionName(FirstDay(k)), Range(FirstDay(k), FirstDay(k + 1)))
  {
    hide PartitionName;
  }

  /** One more statement of the migration, in terms of the months created so far. */
  lemma {:induction false} ExecutedMigration(t: Table, k: int, i: nat, statement: Ddl)
    requires 12 <= k
    requires i == 0 ==> statement == DropParent
    requires i == 1 ==> statement == CreateParent
    requires 2 <= i ==> statement == CreateMonthStatement(k + i - 2)
    requires 1 <= i ==> t == Ensured(map[], k, if i <= 2 then 0 else i - 2)
    ensures Executed(t, statement) == Ensured(map[], k, if i <= 1 then 0 else i - 1)
  {
    hide Name, Bounds;
    if 2 <= i {
      assert Executed(t, statement) == WithMonth(t, k + i - 2);
      assert Ensured(map[], k, i - 1) == WithMonth(Ensured(map[], k, i - 2), k + i - 2);
    }
  }

  lemma {:induction false} EnsuredNext(t: Table, k: int, n: nat)
    requires 12 <= k
    ensures Ensured(t, k, 0) == t
    ensures Ensured(t, k, n + 1) == WithMonth(Ensured(t, k, n), k + n)
  {
    hide WithMonth;
  }

  class CandleTable {
    var partitions: Table

    ghost predicate Valid()
      reads this
    {
      WholeMonths(partitions)
    }

    constructor ()
      ensures Valid() && partitions == map[]
    {
      partitions := map[];
    }

    /** Postgres refuses a partition whose name is taken, that is empty, or that overlaps another. */
    method CreatePartition(name: string, range: Range)
      requires name !in partitions
      requires Ordinal(range.from) < Ordinal(range.to)
      requires forall other :: other in partitions ==> !Overlap(partitions[other], range)
      modifies this
      ensures partitions == old(partitions)[name := range]
    {
      partitions := partitions[name := range];
    }

    /** Creates the partition of month `k` unless a relation of that name exists. */
    method CreateMonth(name: string, range: Range, ghost k: int)
      requires Valid() && 12 <= k && name == Name(k) && range == Bounds(k)
      modifies this
      ensures Valid() && partitions == WithMonth(old(partitions), k)
    {
      hide Name, Bounds;
      WithMonthWhole(partitions, k);
      if name !in partitions {
        BoundsOfMonth(k);
        forall other | other in partitions ensures !Overlap(partitions[other], range) {
          FreeNameMeansFreeRange(partitions, k, other);
        }
        CreatePartition(name, range);
      }
    }

    method EnsureFuturePartitions(today: Civil, monthsAhead: int) returns (created: int)
      requires Valid()
      modifies this
      ensures Valid()
      ensures partitions == AfterRun(old(partitions), today, monthsAhead)
      ensures created == if monthsAhead < 0 then 0 else monthsAhead + 1
    {
      hide WithMonth, AddMonth, WholeMonths, YearMonth, Ensured;
      ghost var k := MonthOf(today);
      EnsuredNext(partitions, k, 0);
      created := 0;
      var cursorMonth := MonthFloor(today);
      FloorIsFirstDay(today);
      for i := 0 to Iterations(monthsAhead)
        invariant Valid()
        invariant created == i
        invariant cursorMonth == FirstDay(k + i)
        invariant partitions == Ensured(old(partitions), k, i)
      {
        var start := cursorMonth;
        var end := AddMonth(start);
        AddMonthOfFirst(k + i);
        var partitionName := PartitionName(start);
        EnsuredNext(old(partitions), k, i);
        CreateMonth(partitionName, Range(start, end), k + i);
        created := created + 1;
        cursorMonth := end;
      }
    }

    method Execute(statement: Ddl, ghost k: int)
      requires statement.DropParent? || Valid()
      requires statement.CreateIfNotExists? ==> 12 <= k && statement == CreateMonthStatement(k)
      modifies this
      ensures Valid()
      ensures partitions == Executed(old(partitions), statement)
    {
      match statement {
        case DropParent => partitions := map[];
        case CreateParent =>
        case CreateIfNotExists(name, range) => CreateMonth(name, range, k);
      }
    }

    /** The migration: collect the statements, then execute them. Dropping the parent takes
        every old partition with it, whatever its bounds. */
    method ConvertToPartitioned(today: Civil)
      modifies this
      ensures Valid() && partitions == Migrated(today)
    {
      hide *;
      MigratedMonths(today);
      ghost var k := MonthOf(today);
      var statements := [DropParent, CreateParent];
      var cursorMonth := MonthFloor(today);
      FloorIsFirstDay(today);
      for i := 0 to 4
        invariant |statements| == 2 + i && statements[0] == DropParent && statements[1] == CreateParent
        invariant forall j :: 2 <= j < 2 + i ==> statements[j] == CreateMonthStatement(k + j - 2)
        invariant cursorMonth == FirstDay(k + i)
      {
        var start := cursorMonth;
        var end := AddMonth(start);
        AddMonthOfFirst(k + i);
        StatementOfMonth(k + i);
        statements := statements + [CreateIfNotExists(PartitionName(start), Range(start, end))];
        cursorMonth := end;
      }
      for i := 0 to |statements|
        invariant 1 <= i ==> Valid()
        invariant 1 <= i ==> partitions == Ensured(map[], k, if i <= 2 then 0 else i - 2)
      {
        ExecutedMigration(partitions, k, i, statements[i]);
        Execute(statements[i], k + i - 2);
      }
    }
  }
}
