/** Versioned instruments (slowly changing dimension, type 2): one upsert at a time over the
    table of rows, and what the table says about the observations that made it. */
module InstrumentHistory {
  import opened Options

  /** The natural key: source code and identifier at that source. */
  datatype Key = Key(source: string, externalId: string)

  /** The attributes whose change makes a new version. */
  datatype Tracked = Tracked(symbol: string, name: string, assetClass: string, quoteCurrency: string)

  type Metadata = map<string, string>

  /** An instrument as observed upstream. */
  datatype Version = Version(key: Key, tracked: Tracked, metadata: Metadata, observedAt: int)

  datatype Row = Row(
    key: Key,
    tracked: Tracked,
    metadata: Metadata,
    validFrom: int,
    validTo: Option<int>,
    isCurrent: bool)

  /** The table, in order of creation. */
  type Rows = seq<Row>

  predicate IsCurrentFor(r: Row, key: Key) {
    r.key == key && r.isCurrent
  }

  /** The current row of a key. */
  function Current(rows: Rows, key: Key): (r: Option<nat>)
    ensures r.Some? ==> r.value < |rows| && IsCurrentFor(rows[r.value], key)
                        && forall i :: r.value < i < |rows| ==> !IsCurrentFor(rows[i], key)
    ensures r.None? ==> forall i :: 0 <= i < |rows| ==> !IsCurrentFor(rows[i], key)
  {
    if rows == [] then None
    else if IsCurrentFor(rows[|rows| - 1], key) then Some(|rows| - 1)
    else Current(rows[..|rows| - 1], key)
  }

  function Opened(v: Version): Row {
    Row(v.key, v.tracked, v.metadata, v.observedAt, None, true)
  }

  function ClosedAt(r: Row, t: int): Row {
    r.(validTo := Some(t), isCurrent := false)
  }

  /** The table after one upsert. */
  function Upserted(rows: Rows, v: Version): Rows {
    match Current(rows, v.key)
    case None => rows + [Opened(v)]
    case Some(i) =>
      if rows[i].tracked == v.tracked then rows[i := rows[i].(metadata := v.metadata)]
      else rows[i := ClosedAt(rows[i], v.observedAt)] + [Opened(v)]
  }

  function Folded(rows: Rows, log: seq<Version>): Rows {
    if log == [] then rows else Upserted(Folded(rows, log[..|log| - 1]), log[|log| - 1])
  }

  /** In creation order, exactly the last row of each key is current, and it alone has no end. */
  predicate WellFormed(rows: Rows) {
    forall i :: 0 <= i < |rows| ==>
      && (rows[i].isCurrent <==> IsLastOfKey(rows, i))
      && (rows[i].isCurrent <==> rows[i].validTo.None?)
  }

  predicate IsLastOfKey(rows: Rows, i: nat)
    requires i < |rows|
  {
    forall j :: i < j < |rows| ==> rows[j].key != rows[i].key
  }

  // ---- the invariant ----

  lemma {:induction false} LastOfKeyLater(rows: Rows, later: Rows, i: nat)
    requires i < |rows| <= |later| <= |rows| + 1
    requires forall j :: 0 <= j < |rows| ==> later[j].key == rows[j].key
    ensures IsLastOfKey(later, i)
            <==> IsLastOfKey(rows, i) && (|later| == |rows| || later[|rows|].key != rows[i].key)
  {
    if IsLastOfKey(later, i) {
      forall j | i < j < |rows| ensures rows[j].key != rows[i].key {
        assert later[j].key != later[i].key;
      }
    }
    if IsLastOfKey(rows, i) && (|later| == |rows| || later[|rows|].key != rows[i].key) {
      forall j | i < j < |later| ensures later[j].key != later[i].key {
        assert j < |rows| ==> rows[j].key != rows[i].key;
      }
    }
  }

  lemma {:induction false} UpsertKeepsWellFormed(rows: Rows, v: Version)
    requires WellFormed(rows)
    ensures WellFormed(Upserted(rows, v))
  {
    hide Current;
    var later := Upserted(rows, v);
    forall i | 0 <= i < |later|
      ensures later[i].isCurrent <==> IsLastOfKey(later, i)
      ensures later[i].isCurrent <==> later[i].validTo.None?
    {
      if i < |rows| {
        LastOfKeyLater(rows, later, i);
        if IsCurrentFor(rows[i], v.key) {
          CurrentIsUnique(rows, v.key, i);
        }
      }
    }
  }

  lemma {:induction false} CurrentIsUnique(rows: Rows, key: Key, i: nat)
    requires WellFormed(rows) && i < |rows| && IsCurrentFor(rows[i], key)
    ensures Current(rows, key) == Some(i)
  {
    var j := Current(rows, key).value;
    assert IsLastOfKey(rows, i) && IsLastOfKey(rows, j);
  }

  predicate IsOnlyCurrent(rows: Rows, key: Key, j: nat) {
    && j < |rows| && IsCurrentFor(rows[j], key)
    && forall k :: 0 <= k < |rows| && IsCurrentFor(rows[k], key) ==> k == j
  }

  predicate HasOneCurrent(rows: Rows, key: Key) {
    exists j :: 0 <= j < |rows| && IsOnlyCurrent(rows, key, j)
  }

  /** Exactly one current row for every key that has any row. */
  predicate OneCurrentPerKey(rows: Rows) {
    forall i :: 0 <= i < |rows| ==> HasOneCurrent(rows, rows[i].key)
  }

  lemma {:induction false} LastOfKey(rows: Rows, i: nat) returns (j: nat)
    requires i < |rows|
    ensures i <= j < |rows| && rows[j].key == rows[i].key && IsLastOfKey(rows, j)
    decreases |rows| - i
  {
    if IsLastOfKey(rows, i) {
      j := i;
    } else {
      var k :| i < k < |rows| && rows[k].key == rows[i].key;
      j := LastOfKey(rows, k);
    }
  }

  lemma {:induction false} WellFormedHasOneCurrent(rows: Rows)
    requires WellFormed(rows)
    ensures OneCurrentPerKey(rows)
  {
    forall i | 0 <= i < |rows|
      ensures HasOneCurrent(rows, rows[i].key)
    {
      var j := LastOfKey(rows, i);
      CurrentIsUnique(rows, rows[i].key, j);
      forall k | 0 <= k < |rows| && IsCurrentFor(rows[k], rows[i].key) ensures k == j {
        CurrentIsUnique(rows, rows[i].key, k);
      }
      assert IsOnlyCurrent(rows, rows[i].key, j);
    }
  }

  lemma {:induction false} FoldKeepsWellFormed(rows: Rows, log: seq<Version>)
    requires WellFormed(rows)
    ensures WellFormed(Folded(rows, log))
  {
    if log != [] {
      FoldKeepsWellFormed(rows, log[..|log| - 1]);
      UpsertKeepsWellFormed(Folded(rows, log[..|log| - 1]), log[|log| - 1]);
    }
  }

  // ---- what never changes ----

  /** Rows stay where they are; a row's key, attributes and start are final, and a closed row is
      final altogether. */
  predicate Extends(later: Rows, rows: Rows) {
    && |rows| <= |later|
    && forall i :: 0 <= i < |rows| ==>
         && later[i].key == rows[i].key && later[i].tracked == rows[i].tracked
         && later[i].validFrom == rows[i].validFrom
         && (!rows[i].isCurrent ==> later[i] == rows[i])
  }

  lemma {:induction false} UpsertExtends(rows: Rows, v: Version)
    ensures Extends(Upserted(rows, v), rows)
  {
    hide Current;
  }

  lemma {:induction false} ExtendsTransitively(a: Rows, b: Rows, c: Rows)
    requires Extends(b, a) && Extends(c, b)
    ensures Extends(c, a)
  {
    assert forall i :: 0 <= i < |a| && !a[i].isCurrent ==> b[i] == a[i] && c[i] == b[i];
  }

  lemma {:induction false} ClosedRowsAreFinal(rows: Rows, log: seq<Version>)
    ensures Extends(Folded(rows, log), rows)
  {
    hide Upserted;
    if log != [] {
      ClosedRowsAreFinal(rows, log[..|log| - 1]);
      UpsertExtends(Folded(rows, log[..|log| - 1]), log[|log| - 1]);
      ExtendsTransitively(rows, Folded(rows, log[..|log| - 1]), Folded(rows, log));
    }
  }

  // ---- one key at a time ----

  /** The rows of a key, in order of creation. */
  function RowsOf(rows: Rows, key: Key): Rows {
    if rows == [] then []
    else
      var init, last := rows[..|rows| - 1], rows[|rows| - 1];
      RowsOf(init, key) + if last.key == key then [last] else []
  }

  /** The observations of a key, in order. */
  function ObservationsOf(log: seq<Version>, key: Key): seq<Version> {
    if log == [] then []
    else
      var init, last := log[..|log| - 1], log[|log| - 1];
      ObservationsOf(init, key) + if last.key == key then [last] else []
  }

  /** One upsert, as the rows of its key see it. */
  function UpsertedHistory(h: Rows, v: Version): Rows {
    if h == [] then [Opened(v)]
    else
      var init, last := h[..|h| - 1], h[|h| - 1];
      if last.tracked == v.tracked then init + [last.(metadata := v.metadata)]
      else init + [ClosedAt(last, v.observedAt)] + [Opened(v)]
  }

  function History(observations: seq<Version>): Rows {
    if observations == [] then []
    else UpsertedHistory(History(observations[..|observations| - 1]), observations[|observations| - 1])
  }

  lemma {:induction false} RowsOfAppend(rows: Rows, r: Row, key: Key)
    ensures RowsOf(rows + [r], key) == RowsOf(rows, key) + if r.key == key then [r] else []
  {
    assert (rows + [r])[..|rows|] == rows;
  }

  lemma {:induction false} RowsOfOthers(rows: Rows, i: nat, r: Row, key: Key)
    requires i < |rows| && rows[i].key != key && r.key != key
    ensures RowsOf(rows[i := r], key) == RowsOf(rows, key)
    decreases |rows|
  {
    var n := |rows| - 1;
    if i < n {
      RowsOfOthers(rows[..n], i, r, key);
      assert rows[i := r][..n] == rows[..n][i := r];
    } else {
      assert rows[i := r][..n] == rows[..n];
    }
  }

  lemma {:induction false} RowsOfLast(rows: Rows, i: nat, r: Row)
    requires i < |rows| && IsLastOfKey(rows, i) && r.key == rows[i].key
    ensures var h := RowsOf(rows, r.key);
            h != [] && h[|h| - 1] == rows[i] && RowsOf(rows[i := r], r.key) == h[..|h| - 1] + [r]
    decreases |rows|
  {
    var n := |rows| - 1;
    if i < n {
      assert IsLastOfKey(rows[..n], i);
      RowsOfLast(rows[..n], i, r);
      assert rows[i := r][..n] == rows[..n][i := r];
      assert rows[n].key != r.key;
    } else {
      assert rows[i := r][..n] == rows[..n];
    }
  }

  lemma {:induction false} NoRows(rows: Rows, key: Key)
    ensures RowsOf(rows, key) == [] <==> forall i :: 0 <= i < |rows| ==> rows[i].key != key
    decreases |rows|
  {
    if rows != [] {
      var n := |rows| - 1;
      NoRows(rows[..n], key);
      assert forall i :: 0 <= i < n ==> rows[..n][i] == rows[i];
    }
  }

  /** An upsert changes the rows of its own key as one history, and no other key's rows. */
  lemma {:induction false} UpsertByKey(rows: Rows, v: Version, key: Key)
    requires WellFormed(rows)
    ensures RowsOf(Upserted(rows, v), key)
            == if key == v.key then UpsertedHistory(RowsOf(rows, key), v) else RowsOf(rows, key)
  {
    hide RowsOf;
    match Current(rows, v.key)
    case None =>
      NoRows(rows, v.key);
      forall i | 0 <= i < |rows| ensures rows[i].key != v.key {
        var j := LastOfKey(rows, i);
        assert rows[j].key != v.key;
      }
      RowsOfAppend(rows, Opened(v), key);
    case Some(i) =>
      var r := if rows[i].tracked == v.tracked then rows[i].(metadata := v.metadata)
               else ClosedAt(rows[i], v.observedAt);
      assert IsLastOfKey(rows, i);
      if key == v.key {
        RowsOfLast(rows, i, r);
      } else {
        RowsOfOthers(rows, i, r, key);
      }
      RowsOfAppend(rows[i := r], Opened(v), key);
  }

  /** The rows of a key depend on that key's observations only. */
  lemma {:induction false} HistoryByKey(log: seq<Version>, key: Key)
    ensures RowsOf(Folded([], log), key) == History(ObservationsOf(log, key))
  {
    hide UpsertedHistory, Upserted, WellFormed;
    if log != [] {
      var init := log[..|log| - 1];
      HistoryByKey(init, key);
      EmptyIsWellFormed();
      FoldKeepsWellFormed([], init);
      UpsertByKey(Folded([], init), log[|log| - 1], key);
      if log[|log| - 1].key == key {
        var o := ObservationsOf(log, key);
        assert o[..|o| - 1] == ObservationsOf(init, key);
      } else {
        assert ObservationsOf(log, key) == ObservationsOf(init, key);
      }
    }
  }

  lemma {:induction false} EmptyIsWellFormed()
    ensures WellFormed([])
  {
  }

  // ---- run-length histories ----

  /** The observations, cut where the tracked attributes change. */
  function Runs(o: seq<Version>): seq<seq<Version>> {
    if o == [] then []
    else
      var runs, v := Runs(o[..|o| - 1]), o[|o| - 1];
      if Continues(runs, v) then Longer(runs, v) else runs + [[v]]
  }

  /** `v` belongs to the last run. */
  predicate Continues(runs: seq<seq<Version>>, v: Version) {
    runs != [] && runs[|runs| - 1] != [] && runs[|runs| - 1][0].tracked == v.tracked
  }

  function Longer(runs: seq<seq<Version>>, v: Version): seq<seq<Version>>
    requires runs != []
  {
    runs[..|runs| - 1] + [runs[|runs| - 1] + [v]]
  }

  function Joined(runs: seq<seq<Version>>): seq<Version> {
    if runs == [] then [] else Joined(runs[..|runs| - 1]) + runs[|runs| - 1]
  }

  /** `runs` are the maximal runs of `o`: they make up `o`, none is empty, all observations in one
      agree, and neighbouring runs differ. */
  predicate AreMaximalRuns(runs: seq<seq<Version>>, o: seq<Version>) {
    && Joined(runs) == o
    && (forall i :: 0 <= i < |runs| ==> runs[i] != [])
    && (forall i, j :: 0 <= i < |runs| && 0 <= j < |runs[i]| ==> runs[i][j].tracked == runs[i][0].tracked)
    && (forall i :: 0 < i < |runs| ==> runs[i - 1][0].tracked != runs[i][0].tracked)
  }

  lemma {:induction false} NewRun(runs: seq<seq<Version>>, o: seq<Version>, v: Version)
    requires AreMaximalRuns(runs, o) && !Continues(runs, v)
    ensures AreMaximalRuns(runs + [[v]], o + [v])
  {
    hide Joined;
    JoinedAppend(runs, [v]);
  }

  lemma {:induction false} LongerRun(runs: seq<seq<Version>>, o: seq<Version>, v: Version)
    requires AreMaximalRuns(runs, o) && Continues(runs, v)
    ensures AreMaximalRuns(Longer(runs, v), o + [v])
  {
    hide Joined;
    var init, last := runs[..|runs| - 1], runs[|runs| - 1];
    var longer: seq<seq<Version>> := init + [last + [v]];
    assert init + [last] == runs;
    JoinedAppend(init, last);
    JoinedAppend(init, last + [v]);
    assert Joined(init) + (last + [v]) == o + [v];
    forall i, j | 0 <= i < |longer| && 0 <= j < |longer[i]| ensures longer[i][j].tracked == longer[i][0].tracked {
      if i == |init| {
        assert j < |last| ==> longer[i][j] == runs[i][j];
        assert longer[i][0] == runs[i][0];
      }
    }
  }

  lemma {:induction false} JoinedAppend(runs: seq<seq<Version>>, run: seq<Version>)
    ensures Joined(runs + [run]) == Joined(runs) + run
  {
    assert (runs + [run])[..|runs|] == runs;
  }

  lemma {:induction false} RunsAreMaximal(o: seq<Version>)
    ensures AreMaximalRuns(Runs(o), o)
  {
    hide Joined;
    if o == [] {
      NothingJoined();
    } else {
      var init, v := o[..|o| - 1], o[|o| - 1];
      RunsAreMaximal(init);
      assert init + [v] == o;
      var before: seq<seq<Version>> := Runs(init);
      if Continues(before, v) {
        LongerRun(before, init, v);
      } else {
        NewRun(before, init, v);
      }
    }
  }

  lemma {:induction false} NothingJoined()
    ensures Joined([]) == []
  {
  }

  /** The row that stands for the `i`-th run. */
  function RowOfRun(runs: seq<seq<Version>>, i: nat): Row
    requires i < |runs| && forall j :: 0 <= j < |runs| ==> runs[j] != []
  {
    var run := runs[i];
    var isLast := i == |runs| - 1;
    Row(run[0].key, run[0].tracked, run[|run| - 1].metadata, run[0].observedAt,
        if isLast then None else Some(runs[i + 1][0].observedAt), isLast)
  }

  /** The rows stand for the runs, one by one. */
  predicate Matches(h: Rows, runs: seq<seq<Version>>) {
    && |h| == |runs|
    && (forall i :: 0 <= i < |runs| ==> runs[i] != [])
    && (forall i :: 0 <= i < |runs| ==> h[i] == RowOfRun(runs, i))
  }

  lemma {:induction false} MatchesStep(h: Rows, runs: seq<seq<Version>>, v: Version)
    requires Matches(h, runs)
    requires forall i :: 0 <= i < |runs| ==> runs[i][0].key == v.key
    ensures Matches(UpsertedHistory(h, v), if Continues(runs, v) then Longer(runs, v) else runs + [[v]])
  {
    if h != [] {
      assert h[|h| - 1] == RowOfRun(runs, |runs| - 1);
    }
  }

  lemma {:induction false} HistoryIsRunLength(o: seq<Version>, key: Key)
    requires forall i :: 0 <= i < |o| ==> o[i].key == key
    ensures Matches(History(o), Runs(o))
    ensures forall i :: 0 <= i < |Runs(o)| ==> Runs(o)[i][0].key == key
  {
    hide UpsertedHistory, RowOfRun;
    if o != [] {
      var init := o[..|o| - 1];
      HistoryIsRunLength(init, key);
      MatchesStep(History(init), Runs(init), o[|o| - 1]);
    }
  }

  lemma {:induction false} ObservationsHaveKey(log: seq<Version>, key: Key)
    ensures forall i :: 0 <= i < |ObservationsOf(log, key)| ==> ObservationsOf(log, key)[i].key == key
  {
    if log != [] {
      ObservationsHaveKey(log[..|log| - 1], key);
    }
  }

  /** Whatever the times: the rows of a key are its observations with adjacent repeats removed,
      each ending where the next begins, only the last current, each with the metadata last
      observed in its run. */
  lemma {:induction false} RunLengthHistory(log: seq<Version>, key: Key)
    ensures var runs := Runs(ObservationsOf(log, key));
            AreMaximalRuns(runs, ObservationsOf(log, key)) && Matches(RowsOf(Folded([], log), key), runs)
  {
    hide Runs, History, AreMaximalRuns, Matches, RowsOf, ObservationsOf;
    HistoryByKey(log, key);
    ObservationsHaveKey(log, key);
    HistoryIsRunLength(ObservationsOf(log, key), key);
    RunsAreMaximal(ObservationsOf(log, key));
  }

  // ---- as-of queries ----

  predicate Covers(r: Row, t: int) {
    r.validFrom <= t && (r.validTo.None? || t < r.validTo.value)
  }

  ghost predicate ExactlyOneCovers(h: Rows, t: int) {
    exists i :: 0 <= i < |h| && Covers(h[i], t) && forall j :: 0 <= j < |h| && Covers(h[j], t) ==> j == i
  }

  /** Each row ends where the next one starts, and the last is open. */
  predicate Chained(h: Rows) {
    forall i :: 0 <= i < |h| ==> EndsWhereNextStarts(h, i)
  }

  predicate EndsWhereNextStarts(h: Rows, i: nat)
    requires i < |h|
  {
    h[i].validTo == if i == |h| - 1 then None else Some(h[i + 1].validFrom)
  }

  /** No version closes before it starts, unless it starts no later than the first one. */
  predicate Orderly(h: Rows) {
    forall i :: 0 <= i < |h| - 1 ==> InOrder(h, i)
  }

  predicate InOrder(h: Rows, i: nat)
    requires i < |h| - 1
  {
    h[i].validFrom <= h[i + 1].validFrom || h[i].validFrom <= h[0].validFrom
  }

  /** Where validity starts and has stopped again, some row covers. */
  lemma {:induction false} CoverBetween(h: Rows, t: int, a: nat, b: nat) returns (i: nat)
    requires Chained(h) && a < b <= |h| && h[a].validFrom <= t
    requires b == |h| || t < h[b].validFrom
    ensures a <= i < b && Covers(h[i], t)
    decreases b - a
  {
    if a + 1 == b || t < h[a + 1].validFrom {
      assert EndsWhereNextStarts(h, a);
      i := a;
    } else {
      i := CoverBetween(h, t, a + 1, b);
    }
  }

  lemma {:induction false} StartedBefore(h: Rows, t: int, i: nat, j: nat)
    requires Orderly(h) && j <= i < |h| && h[0].validFrom <= t && h[i].validFrom <= t
    ensures h[j].validFrom <= t
    decreases i - j
  {
    if j < i {
      StartedBefore(h, t, i, j + 1);
      assert InOrder(h, j);
    }
  }

  ghost predicate SomeRowCovers(h: Rows, t: int) {
    exists i :: 0 <= i < |h| && Covers(h[i], t)
  }

  lemma {:induction false} OrderlyCoversOnce(h: Rows, t: int)
    requires Chained(h) && h != [] && h[0].validFrom <= t && Orderly(h)
    ensures ExactlyOneCovers(h, t)
  {
    var i := CoverBetween(h, t, 0, |h|);
    forall j | 0 <= j < |h| && Covers(h[j], t) ensures j == i {
      OneOfTwo(h, t, i, j);
    }
  }

  lemma {:induction false} OneOfTwo(h: Rows, t: int, i: nat, j: nat)
    requires Chained(h) && h != [] && h[0].validFrom <= t && Orderly(h)
    requires i < |h| && j < |h| && Covers(h[i], t) && Covers(h[j], t)
    ensures i == j
  {
    hide Orderly;
    assert EndsWhereNextStarts(h, i) && EndsWhereNextStarts(h, j);
    if j < i {
      StartedBefore(h, t, i, j + 1);
    } else if i < j {
      StartedBefore(h, t, j, i + 1);
    }
  }

  lemma {:induction false} DisorderlyCoversTwice(h: Rows) returns (t: int)
    requires Chained(h) && h != [] && !Orderly(h)
    ensures h[0].validFrom <= t && !ExactlyOneCovers(h, t)
  {
    hide Chained, Covers;
    var i :| 0 <= i < |h| - 1 && !InOrder(h, i);
    t := if h[i + 1].validFrom <= h[0].validFrom then h[0].validFrom else h[i + 1].validFrom;
    var j := CoverBetween(h, t, 0, i);
    var k := CoverBetween(h, t, i + 1, |h|);
    assert j != k;
  }

  /** Some row of the key answers every as-of query from the first version on, and exactly one
      does at every time if and only if the versions are orderly. */
  lemma {:induction false} AsOfIsUniqueIff(h: Rows)
    requires Chained(h) && h != []
    ensures forall t :: h[0].validFrom <= t ==> SomeRowCovers(h, t)
    ensures (forall t :: h[0].validFrom <= t ==> ExactlyOneCovers(h, t)) <==> Orderly(h)
  {
    hide Chained, Orderly, ExactlyOneCovers, Covers;
    forall t | h[0].validFrom <= t ensures SomeRowCovers(h, t) {
      var i := CoverBetween(h, t, 0, |h|);
    }
    if Orderly(h) {
      forall t | h[0].validFrom <= t ensures ExactlyOneCovers(h, t) {
        OrderlyCoversOnce(h, t);
      }
    } else {
      var t := DisorderlyCoversTwice(h);
    }
  }

  /** The last observation at or before `t`. */
  function LatestAt(o: seq<Version>, t: int): Option<Version> {
    if o == [] then None
    else if o[|o| - 1].observedAt <= t then Some(o[|o| - 1])
    else LatestAt(o[..|o| - 1], t)
  }

  predicate NonDecreasing(o: seq<Version>) {
    forall i, j :: 0 <= i <= j < |o| ==> o[i].observedAt <= o[j].observedAt
  }

  lemma {:induction false} UpsertedIsChained(h: Rows, v: Version)
    requires Chained(h)
    ensures Chained(UpsertedHistory(h, v))
    ensures h != [] ==> UpsertedHistory(h, v)[0].validFrom == h[0].validFrom
  {
    var later := UpsertedHistory(h, v);
    forall i | 0 <= i < |later| ensures EndsWhereNextStarts(later, i) {
      assert i < |h| ==> EndsWhereNextStarts(h, i);
    }
  }

  lemma {:induction false} HistoryIsChained(o: seq<Version>)
    ensures Chained(History(o))
    ensures o != [] ==> History(o) != [] && History(o)[0].validFrom == o[0].observedAt
  {
    hide Chained;
    if o == [] {
      NothingIsChained();
    } else {
      HistoryIsChained(o[..|o| - 1]);
      UpsertedIsChained(History(o[..|o| - 1]), o[|o| - 1]);
    }
  }

  lemma {:induction false} NothingIsChained()
    ensures Chained([])
  {
  }

  lemma {:induction false} HistoryIsOrdered(o: seq<Version>)
    requires NonDecreasing(o) && o != []
    ensures var h := History(o);
            h != [] && h[|h| - 1].validFrom <= o[|o| - 1].observedAt
            && forall i :: 0 <= i < |h| - 1 ==> h[i].validFrom <= h[i + 1].validFrom
  {
    if |o| > 1 {
      HistoryIsOrdered(o[..|o| - 1]);
    } else {
      assert History(o[..0]) == [];
    }
  }

  /** An earlier time is answered by the same row after the upsert as before it. */
  lemma {:induction false} EarlierAnswerStays(h: Rows, v: Version, i: nat, t: int)
    requires i < |h| && Covers(h[i], t) && t < v.observedAt
    ensures i < |UpsertedHistory(h, v)| && Covers(UpsertedHistory(h, v)[i], t)
    ensures UpsertedHistory(h, v)[i].tracked == h[i].tracked
  {
  }

  /** The version just observed is answered at its time and later. */
  lemma {:induction false} LatestAnswer(h: Rows, v: Version, t: int)
    requires Chained(h) && v.observedAt <= t
    requires h != [] ==> h[|h| - 1].validFrom <= v.observedAt
    ensures var later := UpsertedHistory(h, v);
            later != [] && Covers(later[|later| - 1], t) && later[|later| - 1].tracked == v.tracked
  {
    assert h != [] ==> EndsWhereNextStarts(h, |h| - 1);
  }

  lemma {:induction false} AsOfIsFaithful(o: seq<Version>, t: int) returns (i: nat)
    requires o != [] && NonDecreasing(o) && o[0].observedAt <= t
    ensures i < |History(o)| && Covers(History(o)[i], t)
    ensures LatestAt(o, t).Some? && History(o)[i].tracked == LatestAt(o, t).value.tracked
    decreases |o|
  {
    hide Covers, UpsertedHistory, Chained;
    var init, v := o[..|o| - 1], o[|o| - 1];
    HistoryIsChained(init);
    if init != [] {
      HistoryIsOrdered(init);
    }
    if v.observedAt <= t {
      LatestAnswer(History(init), v, t);
      i := |History(o)| - 1;
    } else {
      i := AsOfIsFaithful(init, t);
      EarlierAnswerStays(History(init), v, i, t);
    }
  }

  /** If observation times of a key never go back, then at every time from the first observation
      on exactly one of its rows is valid, and it carries the attributes last observed. */
  lemma {:induction false} AsOfFidelity(log: seq<Version>, key: Key, t: int)
    requires var o := ObservationsOf(log, key); o != [] && NonDecreasing(o) && o[0].observedAt <= t
    ensures var h, o := RowsOf(Folded([], log), key), ObservationsOf(log, key);
            && LatestAt(o, t).Some?
            && exists i :: 0 <= i < |h| && Covers(h[i], t) && h[i].tracked == LatestAt(o, t).value.tracked
                 && forall j :: 0 <= j < |h| && Covers(h[j], t) ==> j == i
  {
    hide History, RowsOf, ObservationsOf, Folded, LatestAt, Covers, Chained;
    var o := ObservationsOf(log, key);
    HistoryByKey(log, key);
    HistoryIsChained(o);
    HistoryIsOrdered(o);
    AsOfIsUniqueIff(History(o));
    var i := AsOfIsFaithful(o, t);
    assert ExactlyOneCovers(History(o), t);
  }

  /** What a caller can check before an upsert: the change is no earlier than the row it closes
      (or that row starts no later than the first one, so that closing it early uncovers nothing). */
  predicate Timely(h: Rows, v: Version) {
    h == [] || h[|h| - 1].tracked == v.tracked
    || h[|h| - 1].validFrom <= v.observedAt || h[|h| - 1].validFrom <= h[0].validFrom
  }

  predicate AllTimely(o: seq<Version>) {
    o == [] || (AllTimely(o[..|o| - 1]) && Timely(History(o[..|o| - 1]), o[|o| - 1]))
  }

  lemma {:induction false} UpsertIsOrderlyIff(h: Rows, v: Version)
    ensures Orderly(UpsertedHistory(h, v)) <==> Orderly(h) && Timely(h, v)
  {
    var later := UpsertedHistory(h, v);
    assert forall i :: 0 <= i < |h| ==> later[i].validFrom == h[i].validFrom;
    if Orderly(later) {
      forall i | 0 <= i < |h| - 1 ensures InOrder(h, i) {
        assert InOrder(later, i);
      }
      assert |later| == |h| + 1 && h != [] ==> InOrder(later, |h| - 1);
    } else if Orderly(h) && h != [] {
      var i :| 0 <= i < |later| - 1 && !InOrder(later, i);
      assert i < |h| - 1 ==> InOrder(h, i);
    }
  }

  lemma {:induction false} OrderlyIffTimely(o: seq<Version>)
    ensures Orderly(History(o)) <==> AllTimely(o)
  {
    hide Orderly, UpsertedHistory, Timely;
    if o == [] {
      NothingIsOrderly();
    } else {
      OrderlyIffTimely(o[..|o| - 1]);
      UpsertIsOrderlyIff(History(o[..|o| - 1]), o[|o| - 1]);
    }
  }

  lemma {:induction false} NothingIsOrderly()
    ensures Orderly([])
  {
  }

  /** With no assumption on times: exactly one row of a key is valid at every time from its first
      version on if and only if every upsert of the key was timely. */
  lemma {:induction false} AsOfUniqueIffTimely(log: seq<Version>, key: Key)
    requires ObservationsOf(log, key) != []
    ensures var h := RowsOf(Folded([], log), key);
            && h != []
            && ((forall t :: h[0].validFrom <= t ==> ExactlyOneCovers(h, t)) <==> AllTimely(ObservationsOf(log, key)))
  {
    hide History, RowsOf, ObservationsOf, Folded, Chained, Orderly, ExactlyOneCovers;
    var o := ObservationsOf(log, key);
    HistoryByKey(log, key);
    HistoryIsChained(o);
    AsOfIsUniqueIff(History(o));
    OrderlyIffTimely(o);
  }

  /** Two rows answer one query when a change is observed earlier than the row it closes. */
  lemma {:induction false} BackdatedChangeOverlaps(key: Key, a: Tracked, b: Tracked, m: Metadata)
    requires a != b
    ensures var o := [Version(key, a, m, 10), Version(key, b, m, 20), Version(key, a, m, 15)];
            var h := History(o);
            |h| == 3 && Covers(h[0], 17) && Covers(h[2], 17)
  {
    var v0, v1, v2 := Version(key, a, m, 10), Version(key, b, m, 20), Version(key, a, m, 15);
    assert [v0, v1, v2][..2] == [v0, v1] && [v0, v1][..1] == [v0] && [v0][..0] == [];
    assert History([v0]) == UpsertedHistory([], v0);
    assert History([v0, v1]) == UpsertedHistory(History([v0]), v1);
  }

  // ---- the service ----

  class InstrumentTable {
    var sources: set<string>
    var rows: Rows

    ghost predicate Valid()
      reads this
    {
      WellFormed(rows)
    }

    constructor (sources: set<string>)
      ensures Valid() && rows == [] && this.sources == sources
    {
      this.sources := sources;
      rows := [];
      new;
      EmptyIsWellFormed();
    }

    /** `upsert_instrument_scd2`, one transaction by itself: the row that is current afterwards, or
        nothing (and no change) if the source does not exist. */
    method Upsert(v: Version) returns (instrument: Option<nat>)
      requires Valid()
      modifies this`rows
      ensures Valid()
      ensures v.key.source !in sources ==> instrument == None && rows == old(rows)
      ensures v.key.source in sources ==> rows == Upserted(old(rows), v)
      ensures v.key.source in sources ==>
                && instrument.Some? && Current(rows, v.key) == instrument
                && rows[instrument.value].tracked == v.tracked && rows[instrument.value].metadata == v.metadata
    {
      if v.key.source !in sources {
        return None;
      }
      UpsertKeepsWellFormed(rows, v);
      var current := Current(rows, v.key);
      if current == None {
        rows := rows + [Opened(v)];
        CurrentIsUnique(rows, v.key, |rows| - 1);
        return Some(|rows| - 1);
      }
      var i := current.value;
      var materialChange :=
        || rows[i].tracked.symbol != v.tracked.symbol
        || rows[i].tracked.name != v.tracked.name
        || rows[i].tracked.assetClass != v.tracked.assetClass
        || rows[i].tracked.quoteCurrency != v.tracked.quoteCurrency;
      if !materialChange {
        if rows[i].metadata != v.metadata {
          rows := rows[i := rows[i].(metadata := v.metadata)];
        }
        assert rows == Upserted(old(rows), v);
        CurrentIsUnique(rows, v.key, i);
        return Some(i);
      }
      rows := rows[i := ClosedAt(rows[i], v.observedAt)];
      rows := rows + [Opened(v)];
      CurrentIsUnique(rows, v.key, |rows| - 1);
      return Some(|rows| - 1);
    }
  }
}
