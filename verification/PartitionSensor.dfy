/** The sensor that asks for partition maintenance near the end of each month. */
module PartitionSensor {
  import opened Calendar
  import opened Options

  datatype Decision =
    | Skip(reason: string)
    | RunRequest(runKey: string)

  /** `today.strftime("%Y-%m")`. */
  function CursorKey(today: Civil): string {
    YearMonth(today, '-')
  }

  /** The key under which the run of a month is requested. */
  function RunKey(today: Civil): string {
    "partitions-" + CursorKey(today)
  }

  function DaysLeft(today: Civil): int {
    Ordinal(NextMonth(today)) - Ordinal(today)
  }

  class Sensor {
    /** The key of the last month acted on. */
    var cursor: Option<string>

    constructor ()
      ensures cursor == None
    {
      cursor := None;
    }

    method Evaluate(today: Civil) returns (decision: Decision)
      modifies this
      ensures (cursor, decision.RunRequest?) == Step(old(cursor), today)
      ensures decision.RunRequest?
              <==> MonthLength(MonthOf(today)) - today.day < 5 && old(cursor) != Some(YearMonth(today, '-'))
      ensures cursor == if decision.RunRequest? then Some(YearMonth(today, '-')) else old(cursor)
      ensures decision.RunRequest? ==> decision.runKey == "partitions-" + YearMonth(today, '-')
    {
      DaysLeftIffWindow(today);
      var nextMonth := NextMonth(today);
      var daysLeft := Ordinal(nextMonth) - Ordinal(today);
      if daysLeft > 5 {
        return Skip("more than 5 days to month end");
      }
      var cursorKey := CursorKey(today);
      if cursor == Some(cursorKey) {
        return Skip("already triggered for this month");
      }
      cursor := Some(cursorKey);
      return RunRequest("partitions-" + cursorKey);
    }
  }

  /** One evaluation: the new cursor, and whether a run was requested. */
  function Step(cursor: Option<string>, today: Civil): (Option<string>, bool) {
    if DaysLeft(today) > 5 || cursor == Some(CursorKey(today)) then (cursor, false)
    else (Some(CursorKey(today)), true)
  }

  /** How many runs a series of evaluations requests for month `k`. */
  function Requests(cursor: Option<string>, days: seq<Civil>, k: int): nat
    decreases |days|
  {
    if days == [] then 0
    else
      (if Step(cursor, days[0]).1 && MonthOf(days[0]) == k then 1 else 0)
      + Requests(Step(cursor, days[0]).0, days[1..], k)
  }

  /** One of the last five days of its month. */
  predicate InWindow(d: Civil) {
    MonthLength(MonthOf(d)) - 5 < d.day
  }

  predicate InWindowOf(d: Civil, k: int) {
    InWindow(d) && MonthOf(d) == k
  }

  lemma {:induction false} DaysLeftIffWindow(d: Civil)
    ensures DaysLeft(d) <= 5 <==> InWindow(d)
    ensures DaysLeft(d) == MonthLength(MonthOf(d)) - d.day + 1
    ensures 1 <= DaysLeft(d)
  {
    hide NextMonth, FirstDay, MonthStart, MonthLength, DaysInMonth;
    var k := MonthOf(d);
    NextMonthIsAddMonth(d);
    MonthStartStep(k);
    DateInItsMonth(d);
    DateInItsMonth(FirstDay(k + 1));
  }

  ghost predicate NonDecreasing(days: seq<Civil>) {
    forall i, j :: 0 <= i <= j < |days| ==> Ordinal(days[i]) <= Ordinal(days[j])
  }

  ghost predicate EvaluatedInWindow(days: seq<Civil>, k: int) {
    exists i :: 0 <= i < |days| && InWindowOf(days[i], k)
  }

  lemma {:induction false} EarlierDayEarlierMonth(d: Civil, e: Civil)
    requires Ordinal(d) <= Ordinal(e)
    ensures MonthOf(d) <= MonthOf(e)
  {
    hide MonthStart, Ordinal;
    DateInItsMonth(d);
    DateInItsMonth(e);
    if MonthOf(e) < MonthOf(d) {
      MonthStartMonotone(MonthOf(e) + 1, MonthOf(d));
    }
  }

  lemma {:induction false} SameKeySameMonth(d: Civil, e: Civil)
    ensures CursorKey(d) == CursorKey(e) <==> MonthOf(d) == MonthOf(e)
  {
    if CursorKey(d) == CursorKey(e) {
      YearMonthInjective(d, e, '-');
    }
  }

  lemma {:induction false} InWindowTail(days: seq<Civil>, k: int)
    requires days != []
    ensures EvaluatedInWindow(days, k)
            <==> InWindowOf(days[0], k) || EvaluatedInWindow(days[1..], k)
  {
    hide MonthOf, InWindow;
    if i :| 0 <= i < |days[1..]| && MonthOf(days[1..][i]) == k && InWindow(days[1..][i]) {
      assert days[i + 1] == days[1..][i];
    }
    if i :| 0 <= i < |days| && MonthOf(days[i]) == k && InWindow(days[i]) {
      assert i != 0 ==> days[1..][i - 1] == days[i];
    }
  }

  // ---- any order of days ----

  function KeyOf(acted: Option<Civil>): Option<string> {
    match acted
    case None => None
    case Some(d) => Some(CursorKey(d))
  }

  predicate InWindowOfOther(d: Civil, k: int) {
    InWindow(d) && MonthOf(d) != k
  }

  /** An evaluation in the window of another month, and later one in the window of month `k`. */
  ghost predicate Returns(days: seq<Civil>, k: int) {
    exists b, c :: 0 <= b < c < |days| && InWindowOfOther(days[b], k) && InWindowOf(days[c], k)
  }

  /** The window of month `k`, then that of another month, then that of month `k` again. */
  ghost predicate LeavesAndReturns(days: seq<Civil>, k: int) {
    exists a, b, c ::
      && 0 <= a < b < c < |days|
      && InWindowOf(days[a], k) && InWindowOfOther(days[b], k) && InWindowOf(days[c], k)
  }

  lemma {:induction false} ReturnsTail(days: seq<Civil>, k: int)
    requires days != []
    ensures Returns(days, k)
            <==> (InWindowOfOther(days[0], k) && EvaluatedInWindow(days[1..], k)) || Returns(days[1..], k)
  {
    hide MonthOf, InWindow;
    var rest := days[1..];
    if b, c :| 0 <= b < c < |rest| && InWindowOfOther(rest[b], k) && InWindowOf(rest[c], k) {
      assert InWindowOfOther(days[b + 1], k) && InWindowOf(days[c + 1], k);
    }
    if c :| 0 <= c < |rest| && MonthOf(rest[c]) == k && InWindow(rest[c]) {
      assert InWindowOf(days[c + 1], k);
    }
    if b, c :| 0 <= b < c < |days| && InWindowOfOther(days[b], k) && InWindowOf(days[c], k) {
      assert InWindowOf(rest[c - 1], k) && (b != 0 ==> InWindowOfOther(rest[b - 1], k));
    }
  }

  lemma {:induction false} ReturnsIsEvaluated(days: seq<Civil>, k: int)
    requires Returns(days, k)
    ensures EvaluatedInWindow(days, k)
  {
    hide InWindowOf, InWindowOfOther;
  }

  lemma {:induction false} LeavesAndReturnsLater(days: seq<Civil>, k: int)
    requires days != []
    requires (InWindowOf(days[0], k) && Returns(days[1..], k)) || LeavesAndReturns(days[1..], k)
    ensures LeavesAndReturns(days, k)
  {
    hide InWindowOf, InWindowOfOther;
    var rest := days[1..];
    if InWindowOf(days[0], k) && Returns(rest, k) {
      var b, c :| 0 <= b < c < |rest| && InWindowOfOther(rest[b], k) && InWindowOf(rest[c], k);
      assert rest[b] == days[b + 1] && rest[c] == days[c + 1];
    } else {
      var a, b, c :|
        && 0 <= a < b < c < |rest|
        && InWindowOf(rest[a], k) && InWindowOfOther(rest[b], k) && InWindowOf(rest[c], k);
      assert rest[a] == days[a + 1] && rest[b] == days[b + 1] && rest[c] == days[c + 1];
    }
  }

  lemma {:induction false} LeavesAndReturnsSplit(days: seq<Civil>, k: int)
    requires LeavesAndReturns(days, k)
    ensures days != [] && Returns(days, k)
    ensures (InWindowOf(days[0], k) && Returns(days[1..], k)) || LeavesAndReturns(days[1..], k)
  {
    hide InWindowOf, InWindowOfOther;
    var rest := days[1..];
    var a, b, c :|
      && 0 <= a < b < c < |days|
      && InWindowOf(days[a], k) && InWindowOfOther(days[b], k) && InWindowOf(days[c], k);
    assert rest[b - 1] == days[b] && rest[c - 1] == days[c];
    assert a != 0 ==> rest[a - 1] == days[a];
  }

  lemma {:induction false} NothingInWindow(k: int)
    ensures !EvaluatedInWindow([], k) && !Returns([], k) && !LeavesAndReturns([], k)
  {
  }

  /** Whatever month was acted on last, when a month is requested at all and when at most once. */
  lemma {:induction false} RequestsFrom(acted: Option<Civil>, days: seq<Civil>, k: int)
    ensures var n, silent := Requests(KeyOf(acted), days, k), acted.Some? && MonthOf(acted.value) == k;
            && (n == 0 <==> if silent then !Returns(days, k) else !EvaluatedInWindow(days, k))
            && (!silent ==> (n <= 1 <==> !LeavesAndReturns(days, k)))
    decreases |days|
  {
    hide MonthOf, InWindow, CursorKey, DaysLeft, EvaluatedInWindow, Returns, LeavesAndReturns;
    if days == [] {
      NothingInWindow(k);
    } else {
      var d, rest := days[0], days[1..];
      InWindowTail(days, k);
      ReturnsTail(days, k);
      if LeavesAndReturns(days, k) {
        LeavesAndReturnsSplit(days, k);
      } else if (InWindowOf(d, k) && Returns(rest, k)) || LeavesAndReturns(rest, k) {
        LeavesAndReturnsLater(days, k);
      }
      if LeavesAndReturns(rest, k) {
        LeavesAndReturnsSplit(rest, k);
      }
      if Returns(rest, k) {
        ReturnsIsEvaluated(rest, k);
      }
      DaysLeftIffWindow(d);
      if acted.Some? {
        SameKeySameMonth(acted.value, d);
      }
      RequestsFrom(if InWindow(d) then Some(d) else acted, rest, k);
      RequestsFrom(acted, rest, k);
    }
  }

  /** For days in any order, from an empty cursor: a month is never requested exactly when no
      evaluation falls on one of its last five days, and more than once exactly when the date
      leaves that window for another month's and comes back. */
  lemma {:induction false} NoDoubleFireIff(days: seq<Civil>, k: int)
    ensures Requests(None, days, k) == 0 <==> !EvaluatedInWindow(days, k)
    ensures Requests(None, days, k) <= 1 <==> !LeavesAndReturns(days, k)
    ensures Requests(None, days, k) == 1 <==> EvaluatedInWindow(days, k) && !LeavesAndReturns(days, k)
  {
    RequestsFrom(None, days, k);
  }

  // ---- which run keys are requested ----

  /** The keys under which a series of evaluations requests runs. */
  function RunKeys(cursor: Option<string>, days: seq<Civil>): set<string>
    decreases |days|
  {
    if days == [] then {}
    else
      (if Step(cursor, days[0]).1 then {RunKey(days[0])} else {}) + RunKeys(Step(cursor, days[0]).0, days[1..])
  }

  function WindowKeys(days: seq<Civil>): set<string> {
    set i | 0 <= i < |days| && InWindow(days[i]) :: RunKey(days[i])
  }

  function KeyOfCursor(cursor: Option<string>): set<string> {
    if cursor.None? then {} else {"partitions-" + cursor.value}
  }

  lemma {:induction false} WindowKeysTail(days: seq<Civil>)
    requires days != []
    ensures WindowKeys(days) == (if InWindow(days[0]) then {RunKey(days[0])} else {}) + WindowKeys(days[1..])
  {
    hide InWindow, RunKey;
    assert forall i :: 0 < i < |days| ==> days[i] == days[1..][i - 1];
  }

  /** Whatever the cursor, only its own key can be missing. */
  lemma {:induction false} RunKeysFrom(cursor: Option<string>, days: seq<Civil>)
    ensures RunKeys(cursor, days) + KeyOfCursor(cursor) == WindowKeys(days) + KeyOfCursor(cursor)
    decreases |days|
  {
    hide InWindow, CursorKey, DaysLeft, WindowKeys;
    if days == [] {
      assert WindowKeys(days) == {} by { NoWindowKeys(); }
    } else {
      WindowKeysTail(days);
      DaysLeftIffWindow(days[0]);
      RunKeysFrom(Step(cursor, days[0]).0, days[1..]);
    }
  }

  lemma {:induction false} NoWindowKeys()
    ensures WindowKeys([]) == {}
  {
  }

  lemma {:induction false} SameRunKey(d: Civil, e: Civil)
    ensures RunKey(d) == RunKey(e) <==> MonthOf(d) == MonthOf(e)
  {
    hide CursorKey, MonthOf;
    SameKeySameMonth(d, e);
    assert RunKey(d)[11..] == CursorKey(d) && RunKey(e)[11..] == CursorKey(e);
  }

  /** For days in any order, from an empty cursor: a month requested again is requested under the same
      key, and the keys requested are those of exactly the months evaluated in their window. */
  lemma {:induction false} RunKeysAreTheMonths(days: seq<Civil>)
    ensures RunKeys(None, days) == WindowKeys(days)
    ensures forall d: Civil :: RunKey(d) in RunKeys(None, days) <==> EvaluatedInWindow(days, MonthOf(d))
  {
    hide RunKeys, InWindow, RunKey, MonthOf;
    RunKeysFrom(None, days);
    assert RunKeys(None, days) == RunKeys(None, days) + {} && WindowKeys(days) == WindowKeys(days) + {};
    forall d: Civil ensures RunKey(d) in RunKeys(None, days) <==> EvaluatedInWindow(days, MonthOf(d)) {
      forall i | 0 <= i < |days| ensures RunKey(days[i]) == RunKey(d) <==> MonthOf(days[i]) == MonthOf(d) {
        SameRunKey(days[i], d);
      }
    }
  }

  /** From an empty cursor and over days that never go back, a month is requested exactly once
      if some evaluation falls on one of its last five days, and never otherwise. */
  lemma {:induction false} FiresExactlyOnce(days: seq<Civil>, k: int)
    requires NonDecreasing(days)
    ensures Requests(None, days, k) == if EvaluatedInWindow(days, k) then 1 else 0
  {
    hide MonthOf, InWindow, EvaluatedInWindow, Ordinal, Requests;
    NoDoubleFireIff(days, k);
    if a, b, c :|
      && 0 <= a < b < c < |days|
      && InWindowOf(days[a], k) && InWindowOfOther(days[b], k) && InWindowOf(days[c], k)
    {
      EarlierDayEarlierMonth(days[a], days[b]);
      EarlierDayEarlierMonth(days[b], days[c]);
      assert false;
    }
  }

  /** A run of days on which the date leaves a window and comes back. */
  lemma {:induction false} ClockSetBackFiresTwice(d: Civil, e: Civil)
    requires InWindow(d) && InWindow(e) && MonthOf(d) != MonthOf(e)
    ensures Requests(None, [d, e, d], MonthOf(d)) == 2
  {
    hide MonthOf, InWindow, CursorKey, DaysLeft;
    DaysLeftIffWindow(d);
    DaysLeftIffWindow(e);
    SameKeySameMonth(d, e);
    var k := MonthOf(d);
    assert Requests(Some(CursorKey(d)), [e, d], k) == 1 by {
      assert [e, d][1..] == [d];
      assert Requests(Some(CursorKey(e)), [d], k) == 1 + Requests(Some(CursorKey(d)), [], k);
    }
    assert [d, e, d][1..] == [e, d];
  }
}
