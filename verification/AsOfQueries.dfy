/** When do as-of queries tell the truth? With no assumption on the order of observation times:
    exactly when each upsert was in time for the history it met. */
module AsOfQueries {
  import opened Options
  import opened InstrumentHistory

  /** Exactly one row answers at `t`, with the attributes last observed at or before `t`. */
  ghost predicate AnswersAt(h: Rows, o: seq<Version>, t: int) {
    LatestAt(o, t).Some?
    && exists i ::
         && 0 <= i < |h| && Covers(h[i], t) && h[i].tracked == LatestAt(o, t).value.tracked
         && forall j :: 0 <= j < |h| && Covers(h[j], t) ==> j == i
  }

  /** ... at every time from the first observation on. */
  ghost predicate Faithful(h: Rows, o: seq<Version>) {
    o != [] ==> forall t :: o[0].observedAt <= t ==> AnswersAt(h, o, t)
  }

  /** The row answers at some time from `t` on. */
  predicate AnswersFrom(r: Row, t: int) {
    r.validTo.None? || (r.validFrom < r.validTo.value && t < r.validTo.value)
  }

  function Later(s: int, t: int): int {
    if s <= t then t else s
  }

  /** What a caller can check before an upsert. A change must be timely. A repeat of the current
      attributes may be observed late, but not where other attributes already answer. */
  predicate InTime(h: Rows, v: Version) {
    h == []
    || if h[|h| - 1].tracked != v.tracked then Timely(h, v)
       else forall i :: 0 <= i < |h| && AnswersFrom(h[i], Later(v.observedAt, h[0].validFrom)) ==>
                          h[i].tracked == v.tracked
  }

  predicate AllInTime(o: seq<Version>) {
    o == [] || (AllInTime(o[..|o| - 1]) && InTime(History(o[..|o| - 1]), o[|o| - 1]))
  }

  /** The history of one key so far. */
  ghost predicate IsHistory(h: Rows, o: seq<Version>) {
    && Chained(h) && h != [] && o != []
    && h[0].validFrom == o[0].observedAt
  }

  lemma {:induction false} LatestAfter(o: seq<Version>, v: Version, t: int)
    ensures LatestAt(o + [v], t) == if v.observedAt <= t then Some(v) else LatestAt(o, t)
  {
    assert (o + [v])[..|o|] == o;
  }

  // ---- one more observation ----

  lemma {:induction false} RepeatStaysFaithful(h: Rows, o: seq<Version>, v: Version, t: int)
    requires IsHistory(h, o) && h[|h| - 1].tracked == v.tracked && InTime(h, v)
    requires o[0].observedAt <= t && AnswersAt(h, o, t)
    ensures AnswersAt(UpsertedHistory(h, v), o + [v], t)
  {
    hide LatestAt, Chained;
    LatestAfter(o, v, t);
    var later := UpsertedHistory(h, v);
    var i :| 0 <= i < |h| && Covers(h[i], t) && h[i].tracked == LatestAt(o, t).value.tracked
             && forall j :: 0 <= j < |h| && Covers(h[j], t) ==> j == i;
    assert v.observedAt <= t ==> AnswersFrom(h[i], Later(v.observedAt, h[0].validFrom));
    assert Covers(later[i], t);
    assert forall j :: 0 <= j < |later| && Covers(later[j], t) ==> Covers(h[j], t);
  }

  lemma {:induction false} FaithfulRepeatIsInTime(h: Rows, o: seq<Version>, v: Version)
    requires IsHistory(h, o) && h[|h| - 1].tracked == v.tracked
    requires Faithful(UpsertedHistory(h, v), o + [v])
    ensures InTime(h, v)
  {
    hide LatestAt, Chained, AnswersAt;
    var later, from := UpsertedHistory(h, v), Later(v.observedAt, h[0].validFrom);
    forall i | 0 <= i < |h| && AnswersFrom(h[i], from) ensures h[i].tracked == v.tracked {
      var t := Later(from, h[i].validFrom);
      assert Covers(later[i], t);
      assert AnswersAt(later, o + [v], t) by { assert (o + [v])[0] == o[0]; }
      OnlyAnswer(later, o + [v], t, i);
      LatestAfter(o, v, t);
    }
  }

  lemma {:induction false} OnlyAnswer(h: Rows, o: seq<Version>, t: int, i: nat)
    requires AnswersAt(h, o, t) && i < |h| && Covers(h[i], t)
    ensures LatestAt(o, t).Some? && h[i].tracked == LatestAt(o, t).value.tracked
    ensures forall j :: 0 <= j < |h| && Covers(h[j], t) ==> j == i
  {
    hide LatestAt, Covers;
  }

  lemma {:induction false} ChangeStaysFaithful(h: Rows, o: seq<Version>, v: Version, t: int)
    requires IsHistory(h, o) && h[|h| - 1].tracked != v.tracked && Timely(h, v)
    requires o[0].observedAt <= t && AnswersAt(h, o, t)
    ensures AnswersAt(UpsertedHistory(h, v), o + [v], t)
  {
    hide LatestAt;
    LatestAfter(o, v, t);
    var later, n := UpsertedHistory(h, v), |h|;
    assert EndsWhereNextStarts(h, n - 1);
    var i :| 0 <= i < n && Covers(h[i], t) && h[i].tracked == LatestAt(o, t).value.tracked
             && forall j :: 0 <= j < n && Covers(h[j], t) ==> j == i;
    if v.observedAt <= t {
      assert Covers(h[n - 1], t);
      assert Covers(later[n], t);
      assert forall j :: 0 <= j < n - 1 ==> later[j] == h[j];
      assert forall j :: 0 <= j <= n && Covers(later[j], t) ==> j == n;
    } else {
      assert Covers(later[i], t);
      assert forall j :: 0 <= j < n && Covers(later[j], t) ==> Covers(h[j], t);
    }
  }

  lemma {:induction false} FaithfulChangeIsTimely(h: Rows, o: seq<Version>, v: Version)
    requires IsHistory(h, o) && h[|h| - 1].tracked != v.tracked && Faithful(h, o)
    requires Faithful(UpsertedHistory(h, v), o + [v])
    ensures Timely(h, v)
  {
    hide LatestAt, AnswersAt;
    if !Timely(h, v) {
      var later, t := UpsertedHistory(h, v), Later(v.observedAt, h[0].validFrom);
      var i := CoverBetween(h, t, 0, |h| - 1);
      assert later[i] == h[i] && Covers(later[i], t) && Covers(later[|h|], t);
      assert AnswersAt(later, o + [v], t) by { assert (o + [v])[0] == o[0]; }
      OnlyAnswer(later, o + [v], t, i);
      assert false;
    }
  }

  /** A faithful history stays faithful under an upsert if and only if the upsert is in time. */
  lemma {:induction false} UpsertIsFaithfulIff(h: Rows, o: seq<Version>, v: Version)
    requires IsHistory(h, o) && Faithful(h, o)
    ensures Faithful(UpsertedHistory(h, v), o + [v]) <==> InTime(h, v)
  {
    hide AnswersAt, Timely, UpsertedHistory, Chained;
    assert (o + [v])[0] == o[0];
    if h[|h| - 1].tracked == v.tracked {
      if InTime(h, v) {
        forall t | o[0].observedAt <= t ensures AnswersAt(UpsertedHistory(h, v), o + [v], t) {
          RepeatStaysFaithful(h, o, v, t);
        }
      } else if Faithful(UpsertedHistory(h, v), o + [v]) {
        FaithfulRepeatIsInTime(h, o, v);
      }
    } else {
      if InTime(h, v) {
        forall t | o[0].observedAt <= t ensures AnswersAt(UpsertedHistory(h, v), o + [v], t) {
          ChangeStaysFaithful(h, o, v, t);
        }
      } else if Faithful(UpsertedHistory(h, v), o + [v]) {
        FaithfulChangeIsTimely(h, o, v);
      }
    }
  }

  // ---- a whole run ----

  /** After every upsert so far, the rows of the key answer faithfully. */
  ghost predicate FaithfulThroughout(log: seq<Version>, key: Key) {
    forall n :: 0 <= n <= |log| ==> FaithfulAfter(log, key, n)
  }

  ghost predicate FaithfulAfter(log: seq<Version>, key: Key, n: nat)
    requires n <= |log|
  {
    Faithful(RowsOf(Folded([], log[..n]), key), ObservationsOf(log[..n], key))
  }

  lemma {:induction false} FaithfulThroughoutStep(log: seq<Version>, key: Key)
    requires log != []
    ensures FaithfulThroughout(log, key)
            <==> FaithfulThroughout(log[..|log| - 1], key) && FaithfulAfter(log, key, |log|)
  {
    hide Faithful, RowsOf, ObservationsOf, Folded;
    var init := log[..|log| - 1];
    forall n | 0 <= n <= |init| ensures FaithfulAfter(init, key, n) <==> FaithfulAfter(log, key, n) {
      assert init[..n] == log[..n];
    }
  }

  lemma {:induction false} FirstIsFaithful(v: Version)
    ensures Faithful(History([v]), [v])
  {
    var o := [v];
    assert o[..0] == [] && History(o[..0]) == [];
    var h := History(o);
    assert h == UpsertedHistory([], v) == [Opened(v)];
    forall t | v.observedAt <= t ensures AnswersAt(h, [v], t) {
      assert Covers(h[0], t);
    }
  }

  lemma {:induction false} ObservationsStep(log: seq<Version>, key: Key)
    requires log != []
    ensures var (init, v) := (log[..|log| - 1], log[|log| - 1]);
            ObservationsOf(log, key) == ObservationsOf(init, key) + if v.key == key then [v] else []
  {
  }

  lemma {:induction false} HistoryStep(o: seq<Version>, v: Version)
    ensures History(o + [v]) == UpsertedHistory(History(o), v)
    ensures AllInTime(o + [v]) <==> AllInTime(o) && InTime(History(o), v)
  {
    hide UpsertedHistory, InTime;
    assert (o + [v])[..|o|] == o;
  }

  lemma {:induction false} NothingObserved(key: Key)
    ensures FaithfulThroughout([], key) && AllInTime(ObservationsOf([], key))
  {
  }

  /** With no assumption on times: after every upsert exactly one row of the key is valid at every time
      from its first observation on, with the attributes last observed, if and only if every upsert
      of the key was in time. */
  lemma {:induction false} FaithfulIffInTime(log: seq<Version>, key: Key)
    ensures FaithfulThroughout(log, key) <==> AllInTime(ObservationsOf(log, key))
    decreases |log|
  {
    hide Faithful, RowsOf, ObservationsOf, Folded, History, UpsertedHistory, InTime, AllInTime, FaithfulThroughout;
    if log == [] {
      NothingObserved(key);
    } else {
      var init, v := log[..|log| - 1], log[|log| - 1];
      assert log[..|log|] == log && init[..|init|] == init;
      var before, o := ObservationsOf(init, key), ObservationsOf(log, key);
      FaithfulIffInTime(init, key);
      FaithfulThroughoutStep(log, key);
      ObservationsStep(log, key);
      HistoryByKey(init, key);
      HistoryByKey(log, key);
      if v.key != key {
        assert FaithfulThroughout(init, key) ==> FaithfulAfter(init, key, |init|) by { Throughout(init, key); }
        assert before + [] == before;
      } else {
        HistoryStep(before, v);
        if before == [] {
          FirstStep(v);
        } else {
          assert FaithfulThroughout(init, key) ==> FaithfulAfter(init, key, |init|) by { Throughout(init, key); }
          assert IsHistory(History(before), before) by { HistoryIsHistory(before); }
          if FaithfulThroughout(init, key) {
            UpsertIsFaithfulIff(History(before), before, v);
          }
        }
      }
    }
  }

  lemma {:induction false} Throughout(log: seq<Version>, key: Key)
    ensures FaithfulThroughout(log, key) ==> FaithfulAfter(log, key, |log|)
  {
    hide FaithfulAfter;
  }

  lemma {:induction false} HistoryIsHistory(o: seq<Version>)
    requires o != []
    ensures IsHistory(History(o), o)
  {
    hide Chained, History;
    HistoryIsChained(o);
  }

  lemma {:induction false} FirstStep(v: Version)
    ensures Faithful(History([] + [v]), [] + [v]) && InTime(History([]), v)
  {
    assert [] + [v] == [v];
    FirstIsFaithful(v);
  }

  // ---- one table, whatever came before ----

  /** The latest observation time up to `t`. */
  function LatestTime(o: seq<Version>, t: int): (s: int)
    requires o != [] && o[0].observedAt <= t
    ensures o[0].observedAt <= s <= t
    ensures exists j :: 0 <= j < |o| && o[j].observedAt == s
    ensures forall j :: 0 <= j < |o| && o[j].observedAt <= t ==> o[j].observedAt <= s
  {
    var n := |o| - 1;
    if n == 0 then o[0].observedAt
    else
      assert o[..n][0] == o[0];
      var s := LatestTime(o[..n], t);
      assert exists j :: 0 <= j < n && o[..n][j].observedAt == s;
      assert forall j :: 0 <= j < n ==> o[..n][j] == o[j];
      if o[n].observedAt <= t && s < o[n].observedAt then o[n].observedAt else s
  }

  ghost predicate IsObserved(o: seq<Version>, t: int) {
    exists j :: 0 <= j < |o| && o[j].observedAt == t
  }

  lemma {:induction false} StillObserved(o: seq<Version>, t: int)
    requires o != [] && (IsObserved(o[..|o| - 1], t) || t == o[|o| - 1].observedAt)
    ensures IsObserved(o, t)
  {
    var init := o[..|o| - 1];
    if j :| 0 <= j < |init| && init[j].observedAt == t {
      assert o[j].observedAt == t;
    }
  }

  lemma {:induction false} UpsertedBoundaries(h: Rows, v: Version, i: nat)
    requires i < |UpsertedHistory(h, v)|
    ensures var r := UpsertedHistory(h, v)[i];
            && (r.validFrom == v.observedAt || (i < |h| && r.validFrom == h[i].validFrom))
            && (r.validTo.None? || r.validTo.value == v.observedAt || (i < |h| && r.validTo == h[i].validTo))
  {
  }

  /** Versions begin and end at observation times only. */
  lemma {:induction false} BoundariesAreObserved(o: seq<Version>)
    ensures forall i :: 0 <= i < |History(o)| ==> IsObserved(o, History(o)[i].validFrom)
    ensures forall i :: 0 <= i < |History(o)| && History(o)[i].validTo.Some? ==>
              IsObserved(o, History(o)[i].validTo.value)
  {
    hide UpsertedHistory, IsObserved;
    if o != [] {
      var init, v := o[..|o| - 1], o[|o| - 1];
      BoundariesAreObserved(init);
      forall t | IsObserved(init, t) || t == v.observedAt ensures IsObserved(o, t) {
        StillObserved(o, t);
      }
      forall i | 0 <= i < |History(o)|
        ensures IsObserved(o, History(o)[i].validFrom)
        ensures History(o)[i].validTo.Some? ==> IsObserved(o, History(o)[i].validTo.value)
      {
        UpsertedBoundaries(History(init), v, i);
      }
    }
  }

  lemma {:induction false} LatestBetween(o: seq<Version>, s: int, t: int)
    requires s <= t && forall j :: 0 <= j < |o| && o[j].observedAt <= t ==> o[j].observedAt <= s
    ensures LatestAt(o, t) == LatestAt(o, s)
  {
    if o != [] {
      LatestBetween(o[..|o| - 1], s, t);
    }
  }

  /** Between two observation times nothing changes. */
  lemma {:induction false} AnswersBetween(o: seq<Version>, t: int)
    requires o != [] && o[0].observedAt <= t
    ensures AnswersAt(History(o), o, t) <==> AnswersAt(History(o), o, LatestTime(o, t))
  {
    hide History, LatestAt, LatestTime;
    var h, s := History(o), LatestTime(o, t);
    LatestBetween(o, s, t);
    BoundariesAreObserved(o);
    forall i | 0 <= i < |h| ensures Covers(h[i], t) <==> Covers(h[i], s) {
      assert IsObserved(o, h[i].validFrom);
      assert h[i].validTo.Some? ==> IsObserved(o, h[i].validTo.value);
    }
  }

  /** Observation `j` is found: at its time exactly one row answers, with the attributes last observed by then. */
  ghost predicate IsFound(o: seq<Version>, j: nat)
    requires j < |o|
  {
    o[0].observedAt <= o[j].observedAt ==> AnswersAt(History(o), o, o[j].observedAt)
  }

  /** For one table by itself, with no assumption on times: it is faithful at every time if and only
      if it is at the times of the observations. Finitely many queries decide it. */
  lemma {:induction false} FaithfulIffFound(log: seq<Version>, key: Key)
    ensures var o := ObservationsOf(log, key);
            Faithful(RowsOf(Folded([], log), key), o) <==> forall j :: 0 <= j < |o| ==> IsFound(o, j)
  {
    hide AnswersAt, History, RowsOf, Folded, ObservationsOf, LatestTime;
    var o := ObservationsOf(log, key);
    HistoryByKey(log, key);
    if forall j :: 0 <= j < |o| ==> IsFound(o, j) {
      forall t | o != [] && o[0].observedAt <= t ensures AnswersAt(History(o), o, t) {
        AnswersBetween(o, t);
        var j :| 0 <= j < |o| && o[j].observedAt == LatestTime(o, t);
        assert IsFound(o, j);
      }
    }
  }

  /** Every upsert here is timely, so one row answers at each time; but the late repeat of `b` is
      not in time, and at 15 the table still says `a`. */
  lemma {:induction false} BackdatedRepeatMisleads(key: Key, a: Tracked, b: Tracked, m: Metadata)
    requires a != b
    ensures var o := [Version(key, a, m, 10), Version(key, b, m, 20), Version(key, b, m, 12)];
            && AllTimely(o) && !AllInTime(o)
            && LatestAt(o, 15) == Some(o[2]) && !AnswersAt(History(o), o, 15)
  {
    var v0, v1, v2 := Version(key, a, m, 10), Version(key, b, m, 20), Version(key, b, m, 12);
    var o := [v0, v1, v2];
    assert o[..2] == [v0, v1] && [v0, v1][..1] == [v0] && [v0][..0] == [];
    assert History([v0]) == UpsertedHistory([], v0) == [Opened(v0)];
    var h := History([v0, v1]);
    assert h == UpsertedHistory([Opened(v0)], v1) == [ClosedAt(Opened(v0), 20), Opened(v1)];
    assert AllTimely([v0]) && AllTimely([v0, v1]);
    assert AnswersFrom(h[0], Later(12, 10)) && Covers(History(o)[0], 15);
  }
}
