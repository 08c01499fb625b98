/** The connector's token bucket: two numbers of state that decide exactly what a rate limit
    over all windows of its history decides. Times and tokens are real numbers. */
module RateLimiting {
  import opened Options

  datatype Bucket = Bucket(capacity: real, rate: real, tokens: real, last: real) {
    predicate Valid() {
      0.0 < rate && 0.0 <= tokens <= capacity
    }
  }

  function Min(x: real, y: real): real {
    if x <= y then x else y
  }

  /** Tokens that come in over `seconds`. */
  function Accrued(rate: real, seconds: real): real {
    seconds * rate
  }

  function Full(capacity: real, rate: real, now: real): Bucket {
    Bucket(capacity, rate, capacity, now)
  }

  function Available(b: Bucket, now: real): real {
    Min(b.capacity, b.tokens + Accrued(b.rate, now - b.last))
  }

  /** `take(n)`: the new state, and 0 if the tokens were granted, else the seconds to wait. */
  function Taken(b: Bucket, now: real, n: nat): (r: (Bucket, real))
    requires 0.0 < b.rate
  {
    var available := Available(b, now);
    if available >= n as real then
      (b.(tokens := available - n as real, last := now), 0.0)
    else
      (b.(tokens := available, last := now), (n as real - available) / b.rate)
  }

  predicate Grants(b: Bucket, now: real, n: nat)
  {
    n as real <= Available(b, now)
  }

  lemma {:induction false} AccruedAdds(rate: real, x: real, y: real)
    ensures Accrued(rate, x) + Accrued(rate, y) == Accrued(rate, x + y)
  {
  }

  lemma {:induction false} AccruedMonotone(rate: real, x: real, y: real)
    requires 0.0 < rate
    ensures x < y <==> Accrued(rate, x) < Accrued(rate, y)
    ensures x <= y <==> Accrued(rate, x) <= Accrued(rate, y)
    ensures Accrued(rate, 0.0) == 0.0
  {
    if x < y {
      assert 0.0 < (y - x) * rate;
    } else if y < x {
      assert 0.0 < (x - y) * rate;
    }
  }

  lemma {:induction false} TakeIsValid(b: Bucket, now: real, n: nat)
    requires b.Valid() && b.last <= now
    ensures Taken(b, now, n).0.Valid()
    ensures Taken(b, now, n).1 == 0.0 <==> Grants(b, now, n)
    ensures !Grants(b, now, n) ==> 0.0 < Taken(b, now, n).1
  {
    hide Accrued;
    AccruedMonotone(b.rate, 0.0, now - b.last);
    if !Grants(b, now, n) {
      assert 0.0 < (n as real - Available(b, now)) / b.rate;
    }
  }

  // ---- the specification: every window of the history ----

  /** What has happened to a bucket: its creation (granting 0), then every take. */
  datatype Event = Event(time: real, granted: nat)

  /** Tokens granted from event `i` onward. */
  function GrantedSince(log: seq<Event>, i: nat): nat
    decreases |log| - i
  {
    if |log| <= i then 0 else log[i].granted + GrantedSince(log, i + 1)
  }

  /** The window that opens with event `i` can take `n` more tokens at `now`. */
  predicate WindowPermits(capacity: real, rate: real, log: seq<Event>, i: nat, now: real, n: nat)
    requires i < |log|
  {
    (GrantedSince(log, i) + n) as real <= capacity + Accrued(rate, now - log[i].time)
  }

  /** `n` fits into the burst size and into every window since an earlier event. */
  predicate AllWindowsPermit(capacity: real, rate: real, log: seq<Event>, now: real, n: nat) {
    && n as real <= capacity
    && forall i :: 0 <= i < |log| ==> WindowPermits(capacity, rate, log, i, now, n)
  }

  /** Tokens left in the window that opens with event `i`. */
  function Room(b: Bucket, log: seq<Event>, i: nat): real
    requires i < |log|
  {
    b.capacity + Accrued(b.rate, b.last - log[i].time) - GrantedSince(log, i) as real
  }

  /** The bucket's tokens are the room in its tightest window. */
  ghost predicate Explains(b: Bucket, log: seq<Event>) {
    && b.Valid()
    && 0 < |log|
    && b.last == log[|log| - 1].time
    && (forall i :: 0 <= i < |log| ==> log[i].time <= b.last)
    && (forall i :: 0 <= i < |log| ==> b.tokens <= Room(b, log, i))
    && (exists i :: 0 <= i < |log| && b.tokens == Room(b, log, i))
  }

  function Logged(b: Bucket, now: real, n: nat): Event {
    Event(now, if Grants(b, now, n) then n else 0)
  }

  lemma {:induction false} GrantedSinceAppend(log: seq<Event>, e: Event, i: nat)
    requires i <= |log|
    ensures GrantedSince(log + [e], i) == GrantedSince(log, i) + e.granted
    decreases |log| - i
  {
    if i < |log| {
      GrantedSinceAppend(log, e, i + 1);
    } else {
      assert GrantedSince(log + [e], i + 1) == 0;
    }
  }

  /** After a take, an old window's room has grown by the refill and shrunk by the grant. */
  lemma {:induction false} RoomAfterTake(b: Bucket, log: seq<Event>, i: nat, now: real, n: nat)
    requires b.Valid() && b.last <= now && i < |log|
    ensures var (c, e) := (Taken(b, now, n).0, Logged(b, now, n));
            Room(c, log + [e], i) == Room(b, log, i) + Accrued(b.rate, now - b.last) - e.granted as real
  {
    hide Accrued;
    GrantedSinceAppend(log, Logged(b, now, n), i);
    AccruedAdds(b.rate, b.last - log[i].time, now - b.last);
  }

  lemma {:induction false} GrantsIffAllWindows(b: Bucket, log: seq<Event>, now: real, n: nat)
    requires Explains(b, log) && b.last <= now
    ensures Grants(b, now, n) <==> AllWindowsPermit(b.capacity, b.rate, log, now, n)
  {
    hide Accrued;
    forall i | 0 <= i < |log|
      ensures WindowPermits(b.capacity, b.rate, log, i, now, n)
              <==> n as real <= Room(b, log, i) + Accrued(b.rate, now - b.last)
    {
      AccruedAdds(b.rate, b.last - log[i].time, now - b.last);
    }
  }

  lemma {:induction false} ExplainsStep(b: Bucket, log: seq<Event>, now: real, n: nat)
    requires Explains(b, log) && b.last <= now
    ensures Explains(Taken(b, now, n).0, log + [Logged(b, now, n)])
  {
    hide Accrued, GrantedSince;
    var (c, e) := (Taken(b, now, n).0, Logged(b, now, n));
    var log' := log + [e];
    TakeIsValid(b, now, n);
    AccruedMonotone(b.rate, 0.0, 0.0);
    GrantedSinceAppend(log, e, |log|);
    assert GrantedSince(log, |log|) == 0 by { NothingGrantedAfterLast(log); }
    assert Room(c, log', |log|) == c.capacity - e.granted as real;
    forall i | 0 <= i < |log| ensures c.tokens <= Room(c, log', i) {
      RoomAfterTake(b, log, i, now, n);
    }
    var w :| 0 <= w < |log| && b.tokens == Room(b, log, w);
    RoomAfterTake(b, log, w, now, n);
    assert c.tokens == Room(c, log', w) || c.tokens == Room(c, log', |log|);
  }

  lemma {:induction false} NothingGrantedAfterLast(log: seq<Event>)
    ensures GrantedSince(log, |log|) == 0
  {
  }

  // ---- whole runs ----

  datatype Request = Request(time: real, n: nat)

  /** Times never go back, and none is before `start`. */
  predicate ClockFrom(start: real, requests: seq<Request>)
    decreases |requests|
  {
    requests == [] || (start <= requests[0].time && ClockFrom(requests[0].time, requests[1..]))
  }

  function Run(b: Bucket, requests: seq<Request>): (c: Bucket)
    requires 0.0 < b.rate
    ensures c.rate == b.rate && c.capacity == b.capacity
    decreases |requests|
  {
    if requests == [] then b
    else Run(Taken(b, requests[0].time, requests[0].n).0, requests[1..])
  }

  function Waits(b: Bucket, requests: seq<Request>): (waits: seq<real>)
    requires 0.0 < b.rate
    ensures |waits| == |requests|
    decreases |requests|
  {
    if requests == [] then []
    else
      var (c, wait) := Taken(b, requests[0].time, requests[0].n);
      [wait] + Waits(c, requests[1..])
  }

  /** The log a run leaves behind. */
  function History(b: Bucket, log: seq<Event>, requests: seq<Request>): seq<Event>
    requires 0.0 < b.rate
    decreases |requests|
  {
    if requests == [] then log
    else
      var r := requests[0];
      History(Taken(b, r.time, r.n).0, log + [Logged(b, r.time, r.n)], requests[1..])
  }

  lemma {:induction false} ExplainsRun(b: Bucket, log: seq<Event>, requests: seq<Request>)
    requires Explains(b, log) && ClockFrom(b.last, requests)
    ensures Explains(Run(b, requests), History(b, log, requests))
    decreases |requests|
  {
    hide Explains, Available, Logged;
    if requests != [] {
      var r := requests[0];
      assert b.Valid() by { ExplainsValid(b, log); }
      ExplainsStep(b, log, r.time, r.n);
      ExplainsRun(Taken(b, r.time, r.n).0, log + [Logged(b, r.time, r.n)], requests[1..]);
    }
  }

  lemma {:induction false} ExplainsValid(b: Bucket, log: seq<Event>)
    requires Explains(b, log)
    ensures b.Valid() && 0 < |log|
  {
  }

  lemma {:induction false} ExplainsFull(capacity: real, rate: real, created: real)
    requires 0.0 <= capacity && 0.0 < rate
    ensures Explains(Full(capacity, rate, created), [Event(created, 0)])
  {
    var b, log := Full(capacity, rate, created), [Event(created, 0)];
    hide Accrued;
    AccruedMonotone(rate, 0.0, 0.0);
    assert GrantedSince(log, 0) == log[0].granted + GrantedSince(log, 1) == 0;
    assert Room(b, log, 0) == capacity;
  }

  /** After any run, `take(n)` is granted exactly when every window of the history permits it:
      the O(1) state never grants too much in any window and never refuses what all permit. */
  lemma {:induction false} TakeDecidesAllWindows(capacity: real, rate: real, created: real, requests: seq<Request>,
                                                 now: real, n: nat)
    requires 0.0 <= capacity && 0.0 < rate && ClockFrom(created, requests + [Request(now, n)])
    ensures var full := Full(capacity, rate, created);
            Taken(Run(full, requests), now, n).1 == 0.0
            <==> AllWindowsPermit(capacity, rate, History(full, [Event(created, 0)], requests), now, n)
  {
    hide Available, AllWindowsPermit, Explains;
    var full := Full(capacity, rate, created);
    ExplainsFull(capacity, rate, created);
    ClockSplit(full, requests, [Request(now, n)]);
    ExplainsRun(full, [Event(created, 0)], requests);
    var b, log := Run(full, requests), History(full, [Event(created, 0)], requests);
    ExplainsValid(b, log);
    GrantsIffAllWindows(b, log, now, n);
    TakeIsValid(b, now, n);
  }

  lemma {:induction false} ClockSplit(b: Bucket, before: seq<Request>, after: seq<Request>)
    requires 0.0 < b.rate && ClockFrom(b.last, before + after)
    ensures ClockFrom(b.last, before) && ClockFrom(Run(b, before).last, after)
    decreases |before|
  {
    hide Available;
    if before == [] {
      assert before + after == after;
    } else {
      var r := before[0];
      assert (before + after)[1..] == before[1..] + after;
      ClockSplit(Taken(b, r.time, r.n).0, before[1..], after);
    }
  }

  // ---- the log bounds every time window ----

  /** Tokens granted at times from `from` to `to`. */
  function GrantedWithin(log: seq<Event>, from: real, to: real): nat {
    if log == [] then 0
    else
      var e := log[|log| - 1];
      GrantedWithin(log[..|log| - 1], from, to) + if from <= e.time <= to then e.granted else 0
  }

  /** Within any span of `T` seconds at most `capacity + rate * T` tokens are granted. */
  ghost predicate RateLimited(capacity: real, rate: real, log: seq<Event>) {
    forall from, to :: from <= to ==>
      GrantedWithin(log, from, to) as real <= capacity + Accrued(rate, to - from)
  }

  /** Between an event inside the span and the end of the log, the grants are those since it. */
  lemma {:induction false} WithinAtMostSince(log: seq<Event>, from: real, to: real) returns (i: nat)
    ensures i <= |log|
    ensures i < |log| ==> from <= log[i].time
    ensures GrantedWithin(log, from, to) <= GrantedSince(log, i)
    decreases |log|
  {
    if log == [] {
      i := 0;
    } else {
      var init, e := log[..|log| - 1], log[|log| - 1];
      assert init + [e] == log;
      i := WithinAtMostSince(init, from, to);
      GrantedSinceAppend(init, e, i);
      if i == |init| && !(from <= e.time) {
        assert GrantedSince(init, i) == 0;
        assert GrantedWithin(log, from, to) == 0;
        i := |log|;
      }
    }
  }

  lemma {:induction false} RateLimitedStep(b: Bucket, log: seq<Event>, now: real, n: nat)
    requires Explains(b, log) && b.last <= now && RateLimited(b.capacity, b.rate, log)
    ensures RateLimited(b.capacity, b.rate, log + [Logged(b, now, n)])
  {
    hide Accrued, GrantedSince, Explains, Available;
    ExplainsValid(b, log);
    var (c, e) := (Taken(b, now, n).0, Logged(b, now, n));
    var log' := log + [e];
    ExplainsStep(b, log, now, n);
    forall from, to | from <= to
      ensures GrantedWithin(log', from, to) as real <= b.capacity + Accrued(b.rate, to - from)
    {
      assert log'[..|log'| - 1] == log;
      if from <= now <= to {
        var i := WithinAtMostSince(log', from, to);
        AccruedMonotone(b.rate, 0.0, to - from);
        if i < |log'| {
          assert 0.0 <= Room(c, log', i) by { RoomNonNegative(c, log', i); }
          AccruedMonotone(b.rate, c.last - log'[i].time, to - from);
        } else {
          NothingGrantedAfterLast(log');
        }
      }
    }
  }

  lemma {:induction false} RoomNonNegative(b: Bucket, log: seq<Event>, i: nat)
    requires Explains(b, log) && i < |log|
    ensures 0.0 <= Room(b, log, i)
  {
    hide Room;
  }

  lemma {:induction false} RunIsRateLimited(b: Bucket, log: seq<Event>, requests: seq<Request>)
    requires Explains(b, log) && RateLimited(b.capacity, b.rate, log) && ClockFrom(b.last, requests)
    ensures RateLimited(b.capacity, b.rate, History(b, log, requests))
    decreases |requests|
  {
    hide Explains, Available, RateLimited, Logged;
    if requests != [] {
      var r := requests[0];
      ExplainsValid(b, log);
      ExplainsStep(b, log, r.time, r.n);
      RateLimitedStep(b, log, r.time, r.n);
      RunIsRateLimited(Taken(b, r.time, r.n).0, log + [Logged(b, r.time, r.n)], requests[1..]);
    }
  }

  // ---- refused takes are invisible ----

  /** From `now` on the two buckets hold the same tokens. */
  predicate SameFrom(b: Bucket, c: Bucket, now: real) {
    b.rate == c.rate && b.capacity == c.capacity && b.last <= now && c.last <= now
    && Available(b, now) == Available(c, now)
  }

  lemma {:induction false} AvailableGrows(b: Bucket, t: real, u: real)
    requires 0.0 < b.rate && t <= u
    ensures Available(b, u) == Min(b.capacity, Available(b, t) + Accrued(b.rate, u - t))
  {
    hide Accrued;
    AccruedAdds(b.rate, t - b.last, u - t);
    AccruedMonotone(b.rate, 0.0, u - t);
  }

  lemma {:induction false} RefusedOnlyRefills(b: Bucket, t: real, n: nat)
    requires b.Valid() && b.last <= t && !Grants(b, t, n)
    ensures SameFrom(b, Taken(b, t, n).0, t)
  {
    hide Accrued;
    AccruedMonotone(b.rate, 0.0, 0.0);
  }

  lemma {:induction false} SameLater(b: Bucket, c: Bucket, t: real, u: real)
    requires 0.0 < b.rate && SameFrom(b, c, t) && t <= u
    ensures SameFrom(b, c, u)
  {
    hide Available;
    AvailableGrows(b, t, u);
    AvailableGrows(c, t, u);
  }

  lemma {:induction false} SameTake(b: Bucket, c: Bucket, t: real, n: nat)
    requires 0.0 < b.rate && SameFrom(b, c, t)
    ensures Taken(b, t, n) == Taken(c, t, n)
  {
  }

  lemma {:induction false} SameRun(b: Bucket, c: Bucket, start: real, requests: seq<Request>)
    requires 0.0 < b.rate && SameFrom(b, c, start) && ClockFrom(start, requests)
    ensures Waits(b, requests) == Waits(c, requests)
  {
    hide SameFrom;
    if requests != [] {
      assert b.rate == c.rate by { SameRate(b, c, start); }
      SameLater(b, c, start, requests[0].time);
      SameTake(b, c, requests[0].time, requests[0].n);
    }
  }

  lemma {:induction false} SameRate(b: Bucket, c: Bucket, t: real)
    requires SameFrom(b, c, t)
    ensures b.rate == c.rate
  {
  }

  lemma {:induction false} WaitsSplit(b: Bucket, before: seq<Request>, after: seq<Request>)
    requires 0.0 < b.rate
    ensures Waits(b, before + after) == Waits(b, before) + Waits(Run(b, before), after)
    decreases |before|
  {
    hide Available;
    if before == [] {
      assert before + after == after;
    } else {
      var r := before[0];
      assert (before + after)[1..] == before[1..] + after;
      WaitsSplit(Taken(b, r.time, r.n).0, before[1..], after);
    }
  }

  lemma {:induction false} RunIsValid(b: Bucket, requests: seq<Request>)
    requires b.Valid() && ClockFrom(b.last, requests)
    ensures Run(b, requests).Valid()
    decreases |requests|
  {
    hide Available;
    if requests != [] {
      TakeIsValid(b, requests[0].time, requests[0].n);
      RunIsValid(Taken(b, requests[0].time, requests[0].n).0, requests[1..]);
    }
  }

  lemma {:induction false} WaitsOfRefused(c: Bucket, r: Request, after: seq<Request>)
    requires c.Valid() && c.last <= r.time && ClockFrom(r.time, after) && !Grants(c, r.time, r.n)
    ensures Waits(c, [r] + after) == [Taken(c, r.time, r.n).1] + Waits(c, after)
  {
    hide Available, SameFrom;
    var d := Taken(c, r.time, r.n).0;
    assert ([r] + after)[1..] == after;
    RefusedOnlyRefills(c, r.time, r.n);
    SameRun(c, d, r.time, after);
  }

  /** Taking a refused request out of a run, or putting one in, changes no other outcome. */
  lemma {:induction false} RefusedTakeIsInvisible(b: Bucket, before: seq<Request>, r: Request, after: seq<Request>)
    requires b.Valid() && ClockFrom(b.last, before + ([r] + after))
    requires Taken(Run(b, before), r.time, r.n).1 != 0.0
    ensures var (earlier, later) := (Waits(b, before), Waits(Run(b, before), after));
            && Waits(b, before + after) == earlier + later
            && Waits(b, before + ([r] + after)) == earlier + ([Taken(Run(b, before), r.time, r.n).1] + later)
  {
    hide Available, Waits, Taken;
    ClockSplit(b, before, [r] + after);
    RunIsValid(b, before);
    var c := Run(b, before);
    assert ([r] + after)[1..] == after;
    TakeIsValid(c, r.time, r.n);
    WaitsOfRefused(c, r, after);
    WaitsSplit(b, before, [r] + after);
    WaitsSplit(b, before, after);
  }

  /** Every request of the run is refused. */
  predicate AllRefused(b: Bucket, requests: seq<Request>)
    requires 0.0 < b.rate
  {
    forall i :: 0 <= i < |requests| ==> Waits(b, requests)[i] != 0.0
  }

  lemma {:induction false} PollingOnlyRefills(b: Bucket, polls: seq<Request>, start: real)
    requires b.Valid() && b.last <= start && ClockFrom(start, polls) && AllRefused(b, polls)
    ensures Run(b, polls).last <= LastTime(start, polls)
    ensures SameFrom(b, Run(b, polls), LastTime(start, polls))
    decreases |polls|
  {
    hide Available;
    if polls != [] {
      var r, rest := polls[0], polls[1..];
      var c := Taken(b, r.time, r.n).0;
      assert Waits(b, polls)[0] != 0.0;
      assert forall i :: 0 <= i < |rest| ==> Waits(c, rest)[i] == Waits(b, polls)[i + 1];
      TakeIsValid(b, r.time, r.n);
      RefusedOnlyRefills(b, r.time, r.n);
      PollingOnlyRefills(c, rest, r.time);
      LastTimeLater(r.time, rest);
      SameLater(b, c, r.time, LastTime(start, polls));
    }
  }

  function LastTime(start: real, requests: seq<Request>): real {
    if requests == [] then start else requests[|requests| - 1].time
  }

  lemma {:induction false} LastTimeLater(start: real, requests: seq<Request>)
    requires ClockFrom(start, requests)
    ensures start <= LastTime(start, requests)
    ensures requests != [] ==> LastTime(requests[0].time, requests[1..]) == LastTime(start, requests)
    decreases |requests|
  {
    if requests != [] {
      LastTimeLater(requests[0].time, requests[1..]);
    }
  }

  lemma {:induction false} GrantTime(b: Bucket, t: real, n: nat, u: real)
    requires b.Valid() && b.last <= t <= u && n as real <= b.capacity && !Grants(b, t, n)
    ensures Grants(b, u, n) <==> t + Taken(b, t, n).1 <= u
  {
    hide Available, Accrued;
    var w := Taken(b, t, n).1;
    AvailableGrows(b, t, u);
    assert Accrued(b.rate, w) == n as real - Available(b, t) by { WaitAccrues(n as real - Available(b, t), b.rate); }
    AccruedMonotone(b.rate, w, u - t);
  }

  lemma {:induction false} WaitAccrues(deficit: real, rate: real)
    requires 0.0 < rate
    ensures Accrued(rate, deficit / rate) == deficit
  {
  }

  /** The wait returned for a request that fits the bucket is exact, however much is polled in
      between: as long as every take is refused, a retry is granted from that moment on and not
      before. */
  lemma {:induction false} WaitIsExact(b: Bucket, t: real, n: nat, polls: seq<Request>, retry: real)
    requires b.Valid() && b.last <= t && n as real <= b.capacity
    requires Taken(b, t, n).1 != 0.0
    requires ClockFrom(t, polls + [Request(retry, n)]) && AllRefused(Taken(b, t, n).0, polls)
    ensures Taken(Run(Taken(b, t, n).0, polls), retry, n).1 == 0.0 <==> t + Taken(b, t, n).1 <= retry
  {
    hide Available;
    var c := Taken(b, t, n).0;
    TakeIsValid(b, t, n);
    ClockSplit(c, polls, [Request(retry, n)]);
    RefusedOnlyRefills(b, t, n);
    PollingOnlyRefills(c, polls, t);
    LastTimeLater(t, polls);
    var d := Run(c, polls);
    RunIsValid(c, polls);
    LastTimeOfRun(c, polls);
    SameLater(b, c, t, retry);
    SameLater(c, d, LastTime(t, polls), retry);
    TakeIsValid(d, retry, n);
    assert Available(b, retry) == Available(d, retry);
    GrantTime(b, t, n, retry);
  }

  lemma {:induction false} LastTimeOfRun(b: Bucket, requests: seq<Request>)
    requires 0.0 < b.rate && ClockFrom(b.last, requests)
    ensures Run(b, requests).last == LastTime(b.last, requests)
    decreases |requests|
  {
    hide Available;
    if requests != [] {
      LastTimeOfRun(Taken(b, requests[0].time, requests[0].n).0, requests[1..]);
      LastTimeLater(b.last, requests);
    }
  }

  // ---- the class ----

  class TokenBucket {
    const ratePerSec: real
    const capacity: real
    var tokens: real
    var last: real
    ghost var log: seq<Event>

    ghost function Model(): Bucket
      reads this
    {
      Bucket(capacity, ratePerSec, tokens, last)
    }

    /** The state is explained by the log, and the log keeps the rate limit. */
    ghost predicate Valid()
      reads this
    {
      Explains(Model(), log) && RateLimited(capacity, ratePerSec, log)
    }

    /** `capacity or rate_per_min`: a capacity that is absent or 0 means the rate. Only a positive
        rate makes a bucket that can be used. */
    constructor (ratePerMin: int, capacity: Option<int>, now: real)
      ensures 0 < ratePerMin && (capacity.Some? ==> 0 <= capacity.value) ==> Valid()
      ensures capacity.Some? && capacity.value != 0 ==> this.capacity == capacity.value as real
      ensures capacity.None? || capacity.value == 0 ==> this.capacity == ratePerMin as real
      ensures ratePerSec == ratePerMin as real / 60.0
      ensures Model() == Full(this.capacity, ratePerSec, now) && log == [Event(now, 0)]
    {
      var cap := if capacity.Some? && capacity.value != 0 then capacity.value as real else ratePerMin as real;
      this.ratePerSec := ratePerMin as real / 60.0;
      this.capacity := cap;
      this.tokens := cap;
      this.last := now;
      this.log := [Event(now, 0)];
      new;
      if 0 < ratePerMin && (capacity.Some? ==> 0 <= capacity.value) {
        ExplainsFull(this.capacity, ratePerSec, now);
        FreshIsRateLimited(this.capacity, ratePerSec, now);
      }
    }

    /** `take(n)` at time `now`, read from the monotonic clock under the lock. */
    method Take(now: real, n: nat) returns (wait: real)
      requires Valid() && last <= now
      modifies this
      ensures Valid()
      ensures (Model(), wait) == Taken(old(Model()), now, n)
      ensures wait == 0.0 <==> AllWindowsPermit(capacity, ratePerSec, old(log), now, n)
      ensures wait >= 0.0
      ensures log == old(log) + [Event(now, if wait == 0.0 then n else 0)] == old(log) + [Logged(old(Model()), now, n)]
    {
      hide AllWindowsPermit, Explains, RateLimited;
      ghost var b := Model();
      ExplainsValid(b, log);
      GrantsIffAllWindows(b, log, now, n);
      TakeIsValid(b, now, n);
      ExplainsStep(b, log, now, n);
      RateLimitedStep(b, log, now, n);
      log := log + [Logged(b, now, n)];
      tokens := Min(capacity, tokens + (now - last) * ratePerSec);
      last := now;
      assert tokens == Available(b, now);
      if tokens >= n as real {
        tokens := tokens - n as real;
        return 0.0;
      }
      var deficit := n as real - tokens;
      return deficit / ratePerSec;
    }
  }

  lemma {:induction false} FreshIsRateLimited(capacity: real, rate: real, created: real)
    requires 0.0 <= capacity && 0.0 < rate
    ensures RateLimited(capacity, rate, [Event(created, 0)])
  {
    hide Accrued;
    var log := [Event(created, 0)];
    forall from, to | from <= to
      ensures GrantedWithin(log, from, to) as real <= capacity + Accrued(rate, to - from)
    {
      assert GrantedWithin(log[..0], from, to) == 0;
      AccruedMonotone(rate, 0.0, to - from);
    }
  }
}
