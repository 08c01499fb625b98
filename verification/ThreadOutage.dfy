/** What an outage costs when any number of threads share the connector. */
module ThreadOutage {
  import opened Options
  import CircuitBreaking
  import RateLimiting
  import opened Connector
  import opened ConnectorThreads
  import opened SequentialCalls
  import HalfOpen

  /** Every answer from now on is a failure, and so is every answer not yet judged. */
  predicate AnswersFail(s: State, actions: seq<Action>) {
    && PendingFail(s)
    && forall i :: 0 <= i < |actions| && actions[i].Answer? ==> IsFailure(actions[i].outcome)
  }

  predicate PendingFail(s: State) {
    forall t :: 0 <= t < |s.threads| && s.threads[t].Counted? ==> IsFailure(Response(s.threads[t].status))
  }

  /** The breaker is open, since no later than now, and any failure keeps it so. */
  predicate Outage(s: State) {
    Open(s.core.breaker) && s.core.breaker.openedAt.value <= s.clock
  }

  /** The thread's token is granted and its request goes out. */
  predicate Sends(s: State, a: Action)
    requires 0.0 < s.core.bucket.rate
  {
    Enabled(s, a) && a.TakeFromBucket? && Step(s, a).threads[a.thread].Sent?
  }

  /** Upstream requests of threads `lo`, ..., `hi - 1` in a run. */
  function SentBy(s: State, actions: seq<Action>, lo: nat, hi: nat): nat
    requires 0.0 < s.core.bucket.rate
    decreases |actions|
  {
    if actions == [] then 0
    else
      (if Sends(s, actions[0]) && lo <= actions[0].thread < hi then 1 else 0)
      + SentBy(Step(s, actions[0]), actions[1..], lo, hi)
  }

  lemma {:induction false} SentBySplits(s: State, actions: seq<Action>, lo: nat, mid: nat, hi: nat)
    requires 0.0 < s.core.bucket.rate && lo <= mid <= hi
    ensures SentBy(s, actions, lo, hi) == SentBy(s, actions, lo, mid) + SentBy(s, actions, mid, hi)
    decreases |actions|
  {
    hide Step, Sends;
    if actions != [] {
      SentBySplits(Step(s, actions[0]), actions[1..], lo, mid, hi);
    }
  }

  lemma {:induction false} SentByNobody(s: State, actions: seq<Action>)
    requires 0.0 < s.core.bucket.rate
    ensures SentBy(s, actions, 0, 0) == 0
    decreases |actions|
  {
    hide Step, Sends;
    if actions != [] {
      SentByNobody(Step(s, actions[0]), actions[1..]);
    }
  }

  lemma {:induction false} StepSends(s: State, a: Action)
    requires 0.0 < s.core.bucket.rate
    ensures Step(s, a).core.stats.upstream == s.core.stats.upstream + (if Sends(s, a) then 1 else 0)
    ensures Sends(s, a) ==> a.thread < |s.threads|
  {
    hide RateLimiting.Available, CircuitBreaking.Allows;
  }

  /** Taken together, the threads' requests are the upstream requests of the run. */
  lemma {:induction false} SentByAll(s: State, actions: seq<Action>)
    requires 0.0 < s.core.bucket.rate
    ensures Run(s, actions).core.stats.upstream == s.core.stats.upstream + SentBy(s, actions, 0, |s.threads|)
    decreases |actions|
  {
    hide Step, Sends;
    if actions != [] {
      StepSends(s, actions[0]);
      StepKeepsSettings(s, actions[0]);
      SentByAll(Step(s, actions[0]), actions[1..]);
    }
  }

  // ---- one thread's requests are a cooldown apart ----

  /** `n` requests of thread `t` have used up `n` cooldowns since the trip, and one that has just
      been admitted has used up one more. */
  predicate Spaced(s: State, t: nat, trip: real, n: int)
    requires t < |s.threads|
  {
    var b := s.core.breaker;
    && Outage(s)
    && match s.threads[t]
       case Sent => trip + Cooldowns(n, b.cooldown) <= s.clock
       case Counted(_) => trip + Cooldowns(n, b.cooldown) <= s.clock
       case Allowed =>
         && trip + Cooldowns(n, b.cooldown) <= b.openedAt.value
         && trip + Cooldowns(n, b.cooldown) + b.cooldown <= s.clock
       case _ => trip + Cooldowns(n, b.cooldown) <= b.openedAt.value
  }

  lemma {:induction false} SpacedStep(s: State, a: Action, t: nat, trip: real, n: int)
    requires 0.0 < s.core.bucket.rate && 0.0 < s.core.breaker.cooldown && t < |s.threads| && Spaced(s, t, trip, n)
    requires PendingFail(s) && (a.Answer? ==> IsFailure(a.outcome))
    ensures t < |Step(s, a).threads|
    ensures Spaced(Step(s, a), t, trip, if Sends(s, a) && a.thread == t then n + 1 else n)
    ensures PendingFail(Step(s, a))
  {
    hide RateLimiting.Available, Cooldowns;
    OneMoreCooldown(n, s.core.breaker.cooldown);
  }

  lemma {:induction false} SpacedRun(s: State, actions: seq<Action>, t: nat, trip: real, n: int)
    requires 0.0 < s.core.bucket.rate && 0.0 < s.core.breaker.cooldown && t < |s.threads| && Spaced(s, t, trip, n)
    requires AnswersFail(s, actions)
    ensures trip + Cooldowns(n + SentBy(s, actions, t, t + 1), s.core.breaker.cooldown) <= Run(s, actions).clock
    decreases |actions|
  {
    hide Step, Sends, Cooldowns, PendingFail;
    if actions != [] {
      StepKeepsSettings(s, actions[0]);
      var more := if Sends(s, actions[0]) && actions[0].thread == t then n + 1 else n;
      SpacedStep(s, actions[0], t, trip, n);
      assert forall i :: 0 <= i < |actions[1..]| ==> actions[1..][i] == actions[i + 1];
      SpacedRun(Step(s, actions[0]), actions[1..], t, trip, more);
    }
  }

  // ---- all threads ----

  const IsAllowed: Phase -> bool := (p: Phase) => p.Allowed?

  /** In a time `span` after the trip a thread sends at most floor(span / cooldown) requests, and
      one more if it had been admitted before. */
  lemma {:induction false} OneThread(s: State, actions: seq<Action>, t: nat, span: real)
    requires 0.0 < s.core.bucket.rate && 0.0 < s.core.breaker.cooldown && Outage(s) && AnswersFail(s, actions)
    requires t < |s.threads| && Run(s, actions).clock <= s.core.breaker.openedAt.value + span
    ensures SentBy(s, actions, t, t + 1)
            <= (span / s.core.breaker.cooldown).Floor + if IsAllowed(s.threads[t]) then 1 else 0
  {
    hide Run, SentBy, AnswersFail, Cooldowns;
    var n := if IsAllowed(s.threads[t]) then -1 else 0;
    var trip, cooldown := s.core.breaker.openedAt.value, s.core.breaker.cooldown;
    NoCooldown(cooldown);
    SpacedRun(s, actions, t, trip, n);
    assert Cooldowns(n + SentBy(s, actions, t, t + 1), cooldown) <= span;
    AtMostFloor(n + SentBy(s, actions, t, t + 1), cooldown, span);
  }

  lemma {:induction false} FirstThreads(s: State, actions: seq<Action>, m: nat, span: real)
    requires 0.0 < s.core.bucket.rate && 0.0 < s.core.breaker.cooldown && Outage(s) && AnswersFail(s, actions)
    requires m <= |s.threads| && Run(s, actions).clock <= s.core.breaker.openedAt.value + span
    ensures SentBy(s, actions, 0, m)
            <= m * (span / s.core.breaker.cooldown).Floor + Threads(s.threads[..m], IsAllowed)
    decreases m
  {
    hide Run, SentBy, AnswersFail, Outage, IsAllowed;
    if m == 0 {
      SentByNobody(s, actions);
    } else {
      var floor := (span / s.core.breaker.cooldown).Floor;
      FirstThreads(s, actions, m - 1, span);
      OneThread(s, actions, m - 1, span);
      SentBySplits(s, actions, 0, m - 1, m);
      assert s.threads[..m][..m - 1] == s.threads[..m - 1];
      assert m * floor == (m - 1) * floor + floor;
    }
  }

  /** With M threads and an upstream that only fails, at most M * floor(span / cooldown) requests go
      out in a time `span` after the breaker opened, and one for each thread admitted before. */
  lemma {:induction false} OutageBound(s: State, actions: seq<Action>, span: real)
    requires 0.0 < s.core.bucket.rate && 0.0 < s.core.breaker.cooldown && Outage(s) && AnswersFail(s, actions)
    requires Run(s, actions).clock <= s.core.breaker.openedAt.value + span
    ensures Run(s, actions).core.stats.upstream - s.core.stats.upstream
            <= |s.threads| * (span / s.core.breaker.cooldown).Floor + Threads(s.threads, IsAllowed)
  {
    hide Run, SentBy, AnswersFail, Outage, Threads, IsAllowed;
    SentByAll(s, actions);
    FirstThreads(s, actions, |s.threads|, span);
    assert s.threads[..|s.threads|] == s.threads;
  }

  /** In particular after a trip: the tripping thread is done, so at most M - 1 are stragglers. */
  lemma {:induction false} OutageBoundAfterTrip(s: State, a: Action, actions: seq<Action>, span: real)
    requires s.Valid() && 0.0 < s.core.bucket.rate && 0.0 < s.core.breaker.cooldown && Trips(s, a)
    requires AnswersFail(Step(s, a), actions)
    requires Run(Step(s, a), actions).clock <= a.now + span
    ensures Run(Step(s, a), actions).core.stats.upstream - Step(s, a).core.stats.upstream
            <= |s.threads| * (span / s.core.breaker.cooldown).Floor + |s.threads| - 1
  {
    hide Run, AnswersFail, Threads;
    var next := Step(s, a);
    StepKeepsSettings(s, a);
    TrippingOpens(s, a);
    OutageBound(next, actions, span);
    TrippingThreadIsDone(s, a);
    AllButOne(next.threads, a.thread, IsAllowed);
  }

  lemma {:induction false} TrippingOpens(s: State, a: Action)
    requires s.Valid() && 0.0 < s.core.bucket.rate && Trips(s, a)
    ensures Outage(Step(s, a)) && Step(s, a).core.breaker.openedAt == Some(a.now)
  {
    hide RateLimiting.Explains, RateLimiting.RateLimited, RateLimiting.Available;
  }

  // ---- the bound is attained ----

  /** Threads `k`, `k + 1`, ... one after the other: take a token, fail, count the error. */
  function FailAll(k: nat, threads: nat, now: real): seq<Action>
    decreases threads - k
  {
    if threads <= k then []
    else
      [TakeFromBucket(k, now)] + ([Answer(k, TransportError, now)]
      + ([CountError(k, now)] + FailAll(k + 1, threads, now)))
  }

  /** All threads ask together a cooldown after the latest failure, `rounds` times over. */
  function Rounds(threads: nat, rounds: nat, now: real, cooldown: real): seq<Action> {
    if rounds == 0 then []
    else
      (HalfOpen.AskAll(0, threads, now) + FailAll(0, threads, now))
      + Rounds(threads, rounds - 1, now + cooldown, cooldown)
  }

  /** The bucket holds `n` tokens, and one more failure opens the breaker or keeps it open. */
  predicate Primed(s: State, n: nat) {
    && 0.0 < s.core.bucket.rate && n as real <= s.core.bucket.tokens <= s.core.bucket.capacity
    && s.core.bucket.last <= s.clock
    && s.core.breaker.threshold <= s.core.breaker.failures + 1
  }

  /** `n` more requests have gone out, each has failed, and the last failure was just now. */
  predicate HasFailed(s: State, u: State, n: nat) {
    && |u.threads| == |s.threads|
    && u.core.stats.upstream == s.core.stats.upstream + n
    && u.core.breaker.cooldown == s.core.breaker.cooldown
    && u.core.breaker.openedAt == if n == 0 then s.core.breaker.openedAt else Some(u.clock)
  }

  lemma {:induction false} AccruedIsNotNegative(rate: real, seconds: real)
    requires 0.0 < rate && 0.0 <= seconds
    ensures 0.0 <= RateLimiting.Accrued(rate, seconds)
  {
  }

  lemma {:induction false} ThreadFails(s: State, t: nat, now: real, n: nat)
    requires Primed(s, n + 1) && t < |s.threads| && s.threads[t].Allowed? && s.clock <= now
    ensures var s1 := Step(s, TakeFromBucket(t, now));
            var s2 := Step(s1, Answer(t, TransportError, now));
            var u := Step(s2, CountError(t, now));
            && Primed(u, n) && HasFailed(s, u, 1) && u.clock == now
            && u.threads == s.threads[t := Idle]
  {
    hide RateLimiting.Accrued, RateLimiting.Logged;
    AccruedIsNotNegative(s.core.bucket.rate, now - s.core.bucket.last);
    var s1 := Step(s, TakeFromBucket(t, now));
    assert s1.threads == s.threads[t := Sent] && s1.core.breaker == s.core.breaker;
    var s2 := Step(s1, Answer(t, TransportError, now));
    assert s2.threads == s.threads[t := FailureRecorded];
  }

  lemma {:induction false} AllThreadsFail(s: State, k: nat, now: real, n: nat)
    requires k <= |s.threads| && Primed(s, |s.threads| - k + n) && s.clock <= now
    requires forall t :: 0 <= t < |s.threads| ==> s.threads[t] == if k <= t then Allowed else Idle
    ensures var u := Run(s, FailAll(k, |s.threads|, now));
            && Primed(u, n) && HasFailed(s, u, |s.threads| - k)
            && u.clock == (if k < |s.threads| then now else s.clock)
            && forall t :: 0 <= t < |s.threads| ==> u.threads[t].Idle?
    decreases |s.threads| - k
  {
    hide Primed, Step;
    var m := |s.threads|;
    assert 0.0 < s.core.bucket.rate by { PrimedHasRate(s, m - k + n); }
    if k < m {
      var a, b, c := TakeFromBucket(k, now), Answer(k, TransportError, now), CountError(k, now);
      var rest := FailAll(k + 1, m, now);
      ThreadFails(s, k, now, m - (k + 1) + n);
      RunFirst(s, a, [b] + ([c] + rest));
      RunFirst(Step(s, a), b, [c] + rest);
      RunFirst(Step(Step(s, a), b), c, rest);
      AllThreadsFail(Step(Step(Step(s, a), b), c), k + 1, now, n);
    }
  }

  lemma {:induction false} PrimedHasRate(s: State, n: nat)
    requires Primed(s, n)
    ensures 0.0 < s.core.bucket.rate
  {
  }

  lemma {:induction false} PrimedAfterAsking(s: State, u: State, n: nat)
    requires Primed(s, n) && u.core.bucket == s.core.bucket && u.core.breaker == s.core.breaker && s.clock <= u.clock
    ensures Primed(u, n)
  {
  }

  /** One round: every thread is admitted, sends a request, and fails. */
  lemma {:induction false} RoundFails(s: State, now: real, n: nat)
    requires Primed(s, |s.threads| + n) && s.clock <= now && CircuitBreaking.Allows(s.core.breaker, now)
    requires forall t :: 0 <= t < |s.threads| ==> s.threads[t].Idle?
    ensures var u := Run(s, HalfOpen.AskAll(0, |s.threads|, now) + FailAll(0, |s.threads|, now));
            && Primed(u, n) && HasFailed(s, u, |s.threads|)
            && u.clock == (if s.threads == [] then s.clock else now)
            && forall t :: 0 <= t < |s.threads| ==> u.threads[t].Idle?
  {
    hide Primed, CircuitBreaking.Allows, Run, HalfOpen.AskAll, FailAll;
    assert 0.0 < s.core.bucket.rate by { PrimedHasRate(s, |s.threads| + n); }
    HalfOpen.HalfOpenAdmitsAll(s, 0, now);
    var asked := Run(s, HalfOpen.AskAll(0, |s.threads|, now));
    PrimedAfterAsking(s, asked, |s.threads| + n);
    AllThreadsFail(asked, 0, now, n);
    HalfOpen.GainedSplit(s, HalfOpen.AskAll(0, |s.threads|, now), FailAll(0, |s.threads|, now));
  }

  lemma {:induction false} RoundsUnfold(threads: nat, rounds: nat, now: real, cooldown: real)
    ensures rounds == 0 ==> Rounds(threads, rounds, now, cooldown) == []
    ensures rounds != 0 ==>
              Rounds(threads, rounds, now, cooldown)
              == (HalfOpen.AskAll(0, threads, now) + FailAll(0, threads, now))
                 + Rounds(threads, rounds - 1, now + cooldown, cooldown)
  {
    hide HalfOpen.AskAll, FailAll;
  }

  lemma {:induction false} OneMoreRound(threads: nat, rounds: nat)
    requires rounds != 0
    ensures threads * rounds == threads + threads * (rounds - 1)
    ensures 0 <= threads * (rounds - 1)
  {
  }

  lemma {:induction false} RoundsFail(s: State, rounds: nat)
    requires s.threads != [] && Primed(s, |s.threads| * rounds)
    requires forall t :: 0 <= t < |s.threads| ==> s.threads[t].Idle?
    requires 0.0 < s.core.breaker.cooldown && s.core.breaker.openedAt == Some(s.clock)
    ensures var cooldown := s.core.breaker.cooldown;
            var u := Run(s, Rounds(|s.threads|, rounds, s.clock + cooldown, cooldown));
            && u.core.stats.upstream == s.core.stats.upstream + |s.threads| * rounds
            && u.clock == s.clock + Cooldowns(rounds, cooldown)
    decreases rounds
  {
    hide Primed, Run, HalfOpen.AskAll, FailAll, Cooldowns, Step, Rounds;
    var m, cooldown := |s.threads|, s.core.breaker.cooldown;
    assert 0.0 < s.core.bucket.rate by { PrimedHasRate(s, m * rounds); }
    if rounds == 0 {
      RoundsUnfold(m, rounds, s.clock + cooldown, cooldown);
      HalfOpen.NoActions(s);
      NoCooldown(cooldown);
    } else {
      var now := s.clock + cooldown;
      OneMoreRound(m, rounds);
      var round := HalfOpen.AskAll(0, m, now) + FailAll(0, m, now);
      var rest := Rounds(m, rounds - 1, now + cooldown, cooldown);
      RoundsUnfold(m, rounds, now, cooldown);
      RoundFails(s, now, m * (rounds - 1));
      HalfOpen.GainedSplit(s, round, rest);
      RoundsFail(Run(s, round), rounds - 1);
      OneMoreCooldown(rounds - 1, cooldown);
    }
  }

  predicate AnswersAreErrors(actions: seq<Action>) {
    forall i :: 0 <= i < |actions| && actions[i].Answer? ==> actions[i].outcome.TransportError?
  }

  lemma {:induction false} AskAllAnswersNothing(k: nat, threads: nat, now: real)
    ensures AnswersAreErrors(HalfOpen.AskAll(k, threads, now))
    decreases threads - k
  {
    if k < threads {
      AskAllAnswersNothing(k + 1, threads, now);
    }
  }

  lemma {:induction false} FailAllFails(k: nat, threads: nat, now: real)
    ensures AnswersAreErrors(FailAll(k, threads, now))
    decreases threads - k
  {
    if k < threads {
      FailAllFails(k + 1, threads, now);
    }
  }

  lemma {:induction false} RoundsFailOnly(threads: nat, rounds: nat, now: real, cooldown: real)
    ensures AnswersAreErrors(Rounds(threads, rounds, now, cooldown))
  {
    if rounds != 0 {
      AskAllAnswersNothing(0, threads, now);
      FailAllFails(0, threads, now);
      RoundsFailOnly(threads, rounds - 1, now + cooldown, cooldown);
    }
  }

  lemma {:induction false} WholeCooldowns(n: nat, cooldown: real)
    requires 0.0 < cooldown
    ensures (Cooldowns(n, cooldown) / cooldown).Floor == n
  {
    assert Cooldowns(n, cooldown) / cooldown == n as real;
  }

  /** What follows the first failure: the stragglers fail, then come the rounds. */
  function Aftermath(threads: nat, rounds: nat, now: real, cooldown: real): seq<Action> {
    [CountError(0, now)] + (FailAll(1, threads, now) + Rounds(threads, rounds, now + cooldown, cooldown))
  }

  lemma {:induction false} AftermathFails(s: State, threads: nat, rounds: nat, now: real, cooldown: real)
    requires PendingFail(s)
    ensures AnswersFail(s, Aftermath(threads, rounds, now, cooldown))
  {
    hide FailAll, Rounds, PendingFail;
    FailAllFails(1, threads, now);
    RoundsFailOnly(threads, rounds, now + cooldown, cooldown);
  }

  /** All threads have just been admitted: from the first failure on, the rest of the run. */
  lemma {:induction false} AftermathSends(s: State, rounds: nat)
    requires s.threads != [] && forall t :: 0 <= t < |s.threads| ==> s.threads[t].Allowed?
    requires Primed(s, |s.threads| + |s.threads| * rounds) && 0.0 < s.core.breaker.cooldown
    ensures var m, now, cooldown := |s.threads|, s.clock, s.core.breaker.cooldown;
            var tripped := Step(Step(s, TakeFromBucket(0, now)), Answer(0, TransportError, now));
            var u := Run(tripped, Aftermath(m, rounds, now, cooldown));
            && u.core.stats.upstream == s.core.stats.upstream + m + m * rounds
            && u.clock == now + Cooldowns(rounds, cooldown)
  {
    hide Primed, Run, FailAll, Rounds, Cooldowns, Step;
    var m, now, cooldown := |s.threads|, s.clock, s.core.breaker.cooldown;
    assert 0.0 < s.core.bucket.rate by { PrimedHasRate(s, m + m * rounds); }
    var tripped := Step(Step(s, TakeFromBucket(0, now)), Answer(0, TransportError, now));
    var count, stragglers := CountError(0, now), FailAll(1, m, now);
    var rest := Rounds(m, rounds, now + cooldown, cooldown);
    ThreadFails(s, 0, now, m - 1 + m * rounds);
    var idle := Step(tripped, count);
    RunFirst(tripped, count, stragglers + rest);
    HalfOpen.GainedSplit(idle, stragglers, rest);
    AllThreadsFail(idle, 1, now, m * rounds);
    RoundsFail(Run(idle, stragglers), rounds);
  }

  /** The first answer trips the breaker; nothing else has happened upstream since its request. */
  lemma {:induction false} TripOfFirst(s: State, now: real, n: nat)
    requires Primed(s, n + 1) && s.threads != [] && s.clock <= now
    requires forall t :: 0 <= t < |s.threads| ==> s.threads[t].Allowed?
    ensures var a := Answer(0, TransportError, now);
            var t := Step(s, TakeFromBucket(0, now));
            && 0.0 < t.core.bucket.rate && Trips(t, a)
            && PendingFail(Step(t, a))
            && Step(t, a).core.stats.upstream == s.core.stats.upstream + 1
  {
    hide RateLimiting.Accrued, RateLimiting.Logged;
    AccruedIsNotNegative(s.core.bucket.rate, now - s.core.bucket.last);
    var t := Step(s, TakeFromBucket(0, now));
    assert t.threads == s.threads[0 := Sent] && t.core.breaker == s.core.breaker;
  }

  lemma {:induction false} AllAdmitted(s: State, n: nat)
    requires s.threads != [] && forall t :: 0 <= t < |s.threads| ==> s.threads[t].Idle?
    requires Primed(s, n) && CircuitBreaking.Allows(s.core.breaker, s.clock)
    ensures 0.0 < s.core.bucket.rate
    ensures var u := Run(s, HalfOpen.AskAll(0, |s.threads|, s.clock));
            && Primed(u, n) && |u.threads| == |s.threads| && u.clock == s.clock
            && u.core.breaker.cooldown == s.core.breaker.cooldown
            && forall t :: 0 <= t < |u.threads| ==> u.threads[t].Allowed?
  {
    hide Primed, Run, HalfOpen.AskAll, CircuitBreaking.Allows;
    PrimedHasRate(s, n);
    HalfOpen.HalfOpenAdmitsAll(s, 0, s.clock);
    PrimedAfterAsking(s, Run(s, HalfOpen.AskAll(0, |s.threads|, s.clock)), n);
  }

  /** From idle threads, an admitting breaker one failure away from opening and a bucket with tokens
      enough, for any number of rounds: all threads are admitted, one fails and trips the breaker,
      the stragglers follow, and after each cooldown all threads send together. This reaches the
      bound of `OutageBoundAfterTrip`. */
  lemma {:induction false} BoundIsAttained(s: State, rounds: nat)
      returns (before: seq<Action>, a: Action, actions: seq<Action>)
    requires s.threads != [] && forall t :: 0 <= t < |s.threads| ==> s.threads[t].Idle?
    requires Primed(s, |s.threads| * (rounds + 1)) && CircuitBreaking.Allows(s.core.breaker, s.clock)
    requires 0.0 < s.core.breaker.cooldown
    ensures 0.0 < s.core.bucket.rate
    ensures var t, span := Run(s, before), Cooldowns(rounds, s.core.breaker.cooldown);
            && Trips(t, a) && AnswersFail(Step(t, a), actions)
            && Run(Step(t, a), actions).clock == a.now + span
            && Run(Step(t, a), actions).core.stats.upstream - Step(t, a).core.stats.upstream
               == |s.threads| * (span / s.core.breaker.cooldown).Floor + |s.threads| - 1
  {
    hide Primed, Run, HalfOpen.AskAll, Aftermath, Cooldowns, CircuitBreaking.Allows, Step, AnswersFail, Trips,
         PendingFail, Gained;
    var m, now, cooldown := |s.threads|, s.clock, s.core.breaker.cooldown;
    OneMoreRound(m, rounds + 1);
    var ask, take := HalfOpen.AskAll(0, m, now), TakeFromBucket(0, now);
    AllAdmitted(s, m + m * rounds);
    var asked := Run(s, ask);
    before, a, actions := ask + [take], Answer(0, TransportError, now), Aftermath(m, rounds, now, cooldown);
    HalfOpen.GainedSplit(s, ask, [take]);
    assert [take] + [] == [take];
    RunFirst(asked, take, []);
    HalfOpen.NoActions(Step(asked, take));
    TripOfFirst(asked, now, m - 1 + m * rounds);
    AftermathFails(Step(Step(asked, take), a), m, rounds, now, cooldown);
    AftermathSends(asked, rounds);
    WholeCooldowns(rounds, cooldown);
  }
}
