/** A connector used by one caller: balances over whole runs, and what an outage costs. */
module SequentialCalls {
  import opened Options
  import CircuitBreaking
  import RateLimiting
  import opened Connector
  import opened ConnectorThreads

  /** The clock never goes back, within a call and from call to call. */
  predicate Timed(start: real, calls: seq<Call>)
    decreases |calls|
  {
    calls == [] || (WellTimed(start, calls[0]) && Timed(calls[0].answeredAt, calls[1..]))
  }

  function After(c: Core, calls: seq<Call>): (d: Core)
    requires 0.0 < c.bucket.rate
    ensures d.bucket.rate == c.bucket.rate
    decreases |calls|
  {
    if calls == [] then c else After(Requested(c, calls[0]).0, calls[1..])
  }

  // ---- balance ----

  lemma {:induction false} AfterIsOneThread(s: State, calls: seq<Call>)
    requires s.Valid() && 0.0 < s.core.bucket.rate && s.threads == [Idle] && Conserved(s) && Timed(s.clock, calls)
    ensures After(s.core, calls).Valid()
    ensures Conserved(State(After(s.core, calls), [Idle], s.clock))
    ensures After(s.core, calls).stats.calls == s.core.stats.calls + |calls|
    decreases |calls|
  {
    hide State.Valid, Core.Valid, Conserved, Run, ActionsOf, Requested;
    if calls == [] {
      assert s.core.Valid() by { CoreIsValid(s); }
    } else {
      var call := calls[0];
      var t := Run(s, ActionsOf(0, call));
      SequentialIsOneThread(s.core, s.clock, call);
      ConnectorThreads.RunIsValid(s, ActionsOf(0, call));
      RunConserves(s, ActionsOf(0, call));
      EveryCallIsCounted(s.core, call);
      assert t.core == Requested(s.core, call).0;
      assert Timed(t.clock, calls[1..]) by { TimedEarlier(t.clock, call.answeredAt, calls[1..]); }
      AfterIsOneThread(t, calls[1..]);
      ConservedAnyTime(State(After(s.core, calls), [Idle], t.clock), s.clock);
    }
  }

  lemma {:induction false} CoreIsValid(s: State)
    requires s.Valid()
    ensures s.core.Valid()
  {
  }

  lemma {:induction false} ConservedAnyTime(s: State, clock: real)
    requires Conserved(s)
    ensures Conserved(s.(clock := clock))
  {
  }

  lemma {:induction false} TimedEarlier(start: real, later: real, calls: seq<Call>)
    requires start <= later && Timed(later, calls)
    ensures Timed(start, calls)
  {
  }

  lemma {:induction false} EveryCallIsCounted(c: Core, call: Call)
    requires 0.0 < c.bucket.rate
    ensures Requested(c, call).0.stats.calls == c.stats.calls + 1
  {
    hide RateLimiting.Taken, RateLimiting.Logged, CircuitBreaking.Allows;
  }

  /** From a fresh connector: every call is a breaker rejection, a bucket rejection or an
      upstream request; upstream requests, tokens granted and counted requests are equal in
      number; and the requests of any span of time keep the rate limit, whatever the outcomes. */
  lemma {:induction false} CallsBalance(threshold: int, cooldown: real, capacity: real, rate: real, now: real,
                                        calls: seq<Call>)
    requires 0.0 <= capacity && 0.0 < rate && Timed(now, calls)
    ensures var c := After(Fresh(threshold, cooldown, capacity, rate, now), calls);
            var st := c.stats;
            && |calls| == st.calls == st.breakerOpen + st.bucketRejections + st.upstream
            && st.upstream == RateLimiting.GrantedSince(c.bucketLog, 0) == |st.requestCount|
            && RateLimiting.RateLimited(c.bucket.capacity, rate, c.bucketLog)
  {
    hide Conserved, State.Valid, RateLimiting.RateLimited, RateLimiting.Explains, CircuitBreaking.Agrees,
         RateLimiting.GrantedSince;
    var s := State(Fresh(threshold, cooldown, capacity, rate, now), [Idle], now);
    InitialHolds(threshold, cooldown, capacity, rate, 1, now);
    assert Initial(threshold, cooldown, capacity, rate, 1, now) == s;
    AfterIsOneThread(s, calls);
    QuiescentBalance(State(After(s.core, calls), [Idle], now));
  }

  // ---- outage ----

  predicate AllFail(calls: seq<Call>) {
    forall i :: 0 <= i < |calls| ==> IsFailure(calls[i].outcome)
  }

  /** When the last call would have reached the bucket. */
  function LastTakenAt(start: real, calls: seq<Call>): real {
    if calls == [] then start else calls[|calls| - 1].takenAt
  }

  /** The breaker is open and one more failure keeps it so. */
  predicate Open(b: CircuitBreaking.Breaker) {
    b.openedAt.Some? && b.threshold <= b.failures + 1
  }

  lemma {:induction false} FailingCall(c: Core, call: Call)
    requires 0.0 < c.bucket.rate && Open(c.breaker) && IsFailure(call.outcome)
    requires call.askedAt <= call.takenAt <= call.answeredAt
    ensures var d := Requested(c, call).0;
            && Open(d.breaker) && d.breaker.cooldown == c.breaker.cooldown
            && if d.stats.upstream == c.stats.upstream then d.breaker.openedAt == c.breaker.openedAt
               else && d.stats.upstream == c.stats.upstream + 1
                    && d.breaker.openedAt.value == call.answeredAt
                    && c.breaker.openedAt.value + c.breaker.cooldown <= call.askedAt
  {
    hide RateLimiting.Taken, RateLimiting.Logged;
  }

  lemma {:induction false} LaterCalls(start: real, calls: seq<Call>)
    requires Timed(start, calls)
    ensures start <= LastTakenAt(start, calls)
    ensures calls != [] ==> calls[0].takenAt <= LastTakenAt(start, calls)
    ensures |calls| >= 2 ==> LastTakenAt(calls[0].answeredAt, calls[1..]) == LastTakenAt(start, calls)
    decreases |calls|
  {
    if |calls| >= 2 {
      LaterCalls(calls[0].answeredAt, calls[1..]);
    }
  }

  function Cooldowns(n: int, cooldown: real): real {
    n as real * cooldown
  }

  lemma {:induction false} OneMoreCooldown(n: int, cooldown: real)
    ensures Cooldowns(n + 1, cooldown) == Cooldowns(n, cooldown) + cooldown
  {
  }

  lemma {:induction false} NoCooldown(cooldown: real)
    ensures Cooldowns(0, cooldown) == 0.0 && Cooldowns(-1, cooldown) == -cooldown
  {
  }

  /** With the breaker open and an upstream that only fails, every further upstream request
      costs a cooldown: k requests need at least k cooldowns since the trip. */
  lemma {:induction false} OutageSpacing(c: Core, start: real, calls: seq<Call>)
    requires 0.0 < c.bucket.rate && 0.0 < c.breaker.cooldown && Open(c.breaker) && c.breaker.openedAt.value <= start
    requires Timed(start, calls) && AllFail(calls)
    ensures var k := After(c, calls).stats.upstream - c.stats.upstream;
            0 <= k && c.breaker.openedAt.value + Cooldowns(k, c.breaker.cooldown) <= LastTakenAt(start, calls)
    decreases |calls|
  {
    hide Requested, Open, Cooldowns;
    LaterCalls(start, calls);
    assert Cooldowns(0, c.breaker.cooldown) == 0.0 by { NoCooldown(c.breaker.cooldown); }
    if calls != [] {
      var call, rest := calls[0], calls[1..];
      assert Open(c.breaker) && c.breaker.openedAt.Some? by { OpenSince(c.breaker); }
      FailingCall(c, call);
      var d := Requested(c, call).0;
      OpenSince(d.breaker);
      OutageSpacing(d, call.answeredAt, rest);
      var k := After(d, rest).stats.upstream - d.stats.upstream;
      var total := After(c, calls).stats.upstream - c.stats.upstream;
      if d.stats.upstream == c.stats.upstream {
        assert total == k && (rest == [] ==> k == 0);
      } else {
        assert total == k + 1 && (rest == [] ==> k == 0);
        OneMoreCooldown(k, c.breaker.cooldown);
      }
    }
  }

  lemma {:induction false} OpenSince(b: CircuitBreaking.Breaker)
    requires Open(b)
    ensures b.openedAt.Some?
  {
  }

  /** In a time `span` after the trip at most floor(span / cooldown) further upstream requests happen. */
  lemma {:induction false} OutageBound(c: Core, start: real, calls: seq<Call>, span: real)
    requires 0.0 < c.bucket.rate && 0.0 < c.breaker.cooldown && Open(c.breaker) && c.breaker.openedAt.value <= start
    requires Timed(start, calls) && AllFail(calls)
    requires LastTakenAt(start, calls) <= c.breaker.openedAt.value + span
    ensures After(c, calls).stats.upstream - c.stats.upstream <= (span / c.breaker.cooldown).Floor
  {
    hide After, Timed, AllFail, LastTakenAt, Cooldowns;
    OutageSpacing(c, start, calls);
    AtMostFloor(After(c, calls).stats.upstream - c.stats.upstream, c.breaker.cooldown, span);
  }

  lemma {:induction false} AtMostFloor(k: int, cooldown: real, span: real)
    requires 0.0 < cooldown && Cooldowns(k, cooldown) <= span
    ensures k <= (span / cooldown).Floor
  {
    if span / cooldown < k as real {
      Scaled(span / cooldown, k as real, cooldown);
      assert false;
    }
  }

  lemma {:induction false} Scaled(x: real, y: real, factor: real)
    requires x < y && 0.0 < factor
    ensures x * factor < y * factor
  {
    assert 0.0 < (y - x) * factor;
  }

  // ---- a failing batch on a fresh connector ----

  /** Before the trip: `m` failures, `m` tokens spent. */
  predicate Failing(c: Core, threshold: int, cooldown: real, m: nat) {
    && c.breaker == CircuitBreaking.Breaker(threshold, cooldown, m, c.breaker.openedAt)
    && (m < threshold ==> c.breaker.openedAt == None)
    && c.stats.upstream == m
    && c.stats.breakerOpen == 0
    && 0.0 < c.bucket.rate
    && c.bucket.capacity - m as real <= c.bucket.tokens
  }

  lemma {:induction false} FailingStep(c: Core, threshold: int, cooldown: real, m: nat, call: Call)
    requires Failing(c, threshold, cooldown, m) && m < threshold
    requires threshold as real <= c.bucket.capacity && c.bucket.last <= call.takenAt && IsFailure(call.outcome)
    ensures var d := Requested(c, call).0;
            && Failing(d, threshold, cooldown, m + 1)
            && (m + 1 == threshold ==> d.breaker.openedAt == Some(call.answeredAt))
            && d.bucket.last == call.takenAt && d.bucket.capacity == c.bucket.capacity
  {
    hide RateLimiting.Logged, RateLimiting.Accrued;
    RateLimiting.AccruedMonotone(c.bucket.rate, 0.0, call.takenAt - c.bucket.last);
    assert RateLimiting.Grants(c.bucket, call.takenAt, 1);
  }

  lemma {:induction false} FailingCalls(c: Core, threshold: int, cooldown: real, m: nat, calls: seq<Call>)
    requires Failing(c, threshold, cooldown, m) && m + |calls| <= threshold
    requires threshold as real <= c.bucket.capacity && AllFail(calls)
    requires Timed(c.bucket.last, calls)
    ensures var d := After(c, calls);
            && Failing(d, threshold, cooldown, m + |calls|)
            && (calls != [] && m + |calls| == threshold ==> d.breaker.openedAt == Some(calls[|calls| - 1].answeredAt))
    decreases |calls|
  {
    hide Failing, Requested;
    if calls != [] {
      var call, rest := calls[0], calls[1..];
      assert 0.0 < c.bucket.rate by { FailingHasRate(c, threshold, cooldown, m); }
      FailingStep(c, threshold, cooldown, m, call);
      var d := Requested(c, call).0;
      TimedEarlier(call.takenAt, call.answeredAt, rest);
      FailingCalls(d, threshold, cooldown, m + 1, rest);
    }
  }

  lemma {:induction false} FailingHasRate(c: Core, threshold: int, cooldown: real, m: nat)
    requires Failing(c, threshold, cooldown, m)
    ensures 0.0 < c.bucket.rate
  {
  }

  lemma {:induction false} RejectedCalls(c: Core, calls: seq<Call>)
    requires 0.0 < c.bucket.rate && c.breaker.openedAt.Some?
    requires forall i :: 0 <= i < |calls| ==> calls[i].askedAt < c.breaker.openedAt.value + c.breaker.cooldown
    ensures After(c, calls).stats.upstream == c.stats.upstream
    ensures After(c, calls).stats.breakerOpen == c.stats.breakerOpen + |calls|
    decreases |calls|
  {
    hide RateLimiting.Taken, RateLimiting.Logged;
    if calls != [] {
      RejectedCalls(Requested(c, calls[0]).0, calls[1..]);
    }
  }

  lemma {:induction false} AfterSplit(c: Core, before: seq<Call>, after: seq<Call>)
    requires 0.0 < c.bucket.rate
    ensures After(c, before + after) == After(After(c, before), after)
    decreases |before|
  {
    hide Requested;
    if before == [] {
      assert before + after == after;
    } else {
      assert (before + after)[1..] == before[1..] + after;
      AfterSplit(Requested(c, before[0]).0, before[1..], after);
    }
  }

  lemma {:induction false} TimedPrefix(start: real, calls: seq<Call>, n: nat)
    requires Timed(start, calls) && n <= |calls|
    ensures Timed(start, calls[..n])
    decreases n
  {
    if n != 0 {
      TimedPrefix(calls[0].answeredAt, calls[1..], n - 1);
      assert calls[..n][1..] == calls[1..][..n - 1];
    }
  }

  /** N calls that all fail, on a fresh connector whose bucket holds at least `threshold` tokens,
      made within a cooldown of the trip: exactly min(N, threshold) reach the upstream, and all
      the others are turned away by the breaker. */
  lemma {:induction false} FailingBatch(threshold: nat, cooldown: real, capacity: real, rate: real, now: real,
                                        calls: seq<Call>)
    requires 1 <= threshold && threshold as real <= capacity && 0.0 < rate
    requires Timed(now, calls) && AllFail(calls)
    requires forall i :: threshold <= i < |calls| ==> calls[i].askedAt < calls[threshold - 1].answeredAt + cooldown
    ensures var st := After(Fresh(threshold, cooldown, capacity, rate, now), calls).stats;
            var n := if |calls| <= threshold then |calls| else threshold;
            st.upstream == n && st.breakerOpen == |calls| - n
  {
    hide Requested;
    var c := Fresh(threshold, cooldown, capacity, rate, now);
    if |calls| <= threshold {
      FailingCalls(c, threshold, cooldown, 0, calls);
    } else {
      var first, rest := calls[..threshold], calls[threshold..];
      assert calls == first + rest;
      TimedPrefix(now, calls, threshold);
      FailingCalls(c, threshold, cooldown, 0, first);
      AfterSplit(c, first, rest);
      RejectedCalls(After(c, first), rest);
    }
  }
}
