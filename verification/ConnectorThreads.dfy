/** One connector shared by any number of threads, each running `_get` over and over. Every
    action is one atomic step of one thread (what it does under one lock, or one counter
    increment); a run is any sequence of actions. */
module ConnectorThreads {
  import opened Options
  import CircuitBreaking
  import RateLimiting
  import opened Connector

  /** Where a thread is inside `_get`. */
  datatype Phase =
    | Idle
    | TurnedAway
    | Allowed
    | Sent
    | FailureRecorded
    | Counted(status: int)

  datatype State = State(core: Core, threads: seq<Phase>, clock: real) {
    ghost predicate Valid() {
      core.Valid() && core.bucket.last <= clock
    }
  }

  datatype Action =
    | AskBreaker(thread: nat, now: real)
    | CountRejection(thread: nat, now: real)
    | TakeFromBucket(thread: nat, now: real)
    | Answer(thread: nat, outcome: Outcome, now: real)
    | CountError(thread: nat, now: real)
    | Finish(thread: nat, now: real)

  function SetPhase(s: State, core: Core, thread: nat, phase: Phase, now: real): State
    requires thread < |s.threads|
  {
    State(core, s.threads[thread := phase], now)
  }

  /** The thread exists, stands where the action starts, and the clock has not gone back. */
  predicate Enabled(s: State, a: Action) {
    && a.thread < |s.threads|
    && s.clock <= a.now
    && match a
       case AskBreaker(t, _) => s.threads[t].Idle?
       case CountRejection(t, _) => s.threads[t].TurnedAway?
       case TakeFromBucket(t, _) => s.threads[t].Allowed?
       case Answer(t, _, _) => s.threads[t].Sent?
       case CountError(t, _) => s.threads[t].FailureRecorded?
       case Finish(t, _) => s.threads[t].Counted?
  }

  function Perform(s: State, a: Action): State
    requires Enabled(s, a) && 0.0 < s.core.bucket.rate
  {
    match a
    case AskBreaker(t, now) =>
      var (c, allowed) := Ask(s.core, now);
      SetPhase(s, c, t, if allowed then Allowed else TurnedAway, now)
    case CountRejection(t, now) =>
      SetPhase(s, CountOpen(s.core), t, Idle, now)
    case TakeFromBucket(t, now) =>
      var (c, wait) := TakeToken(s.core, now);
      SetPhase(s, c, t, if wait > 0.0 then Idle else Sent, now)
    case Answer(t, outcome, now) =>
      (match outcome
       case TransportError => SetPhase(s, RecordFailure(s.core, now), t, FailureRecorded, now)
       case Response(status) => SetPhase(s, Count(s.core, StatusLabel(status)), t, Counted(status), now))
    case CountError(t, now) =>
      SetPhase(s, Count(s.core, ErrorLabel), t, Idle, now)
    case Finish(t, now) =>
      SetPhase(s, Judge(s.core, s.threads[t].status, now).0, t, Idle, now)
  }

  /** An action that is not enabled does not happen. */
  function Step(s: State, a: Action): (t: State)
    requires 0.0 < s.core.bucket.rate
    ensures t.core.bucket.rate == s.core.bucket.rate
  {
    if Enabled(s, a) then Perform(s, a) else s
  }

  lemma {:induction false} StepKeepsSettings(s: State, a: Action)
    requires 0.0 < s.core.bucket.rate
    ensures Step(s, a).core.bucket.capacity == s.core.bucket.capacity
    ensures Step(s, a).core.breaker.threshold == s.core.breaker.threshold
    ensures Step(s, a).core.breaker.cooldown == s.core.breaker.cooldown
    ensures |Step(s, a).threads| == |s.threads|
  {
  }

  function Run(s: State, actions: seq<Action>): (t: State)
    requires 0.0 < s.core.bucket.rate
    ensures t.core.bucket.rate == s.core.bucket.rate
    decreases |actions|
  {
    if actions == [] then s else Run(Step(s, actions[0]), actions[1..])
  }

  function Initial(threshold: int, cooldown: real, capacity: real, rate: real, threads: nat, now: real): State {
    State(Fresh(threshold, cooldown, capacity, rate, now), seq(threads, _ => Idle), now)
  }

  // ---- both guards agree with their logs, under any interleaving ----

  lemma {:induction false} StepIsValid(s: State, a: Action)
    requires s.Valid() && 0.0 < s.core.bucket.rate
    ensures Step(s, a).Valid()
  {
    hide RateLimiting.Explains, RateLimiting.RateLimited, CircuitBreaking.Agrees, RateLimiting.Available;
    if Enabled(s, a) {
      match a
      case AskBreaker(_, now) => AskIsValid(s.core, now);
      case CountRejection(_, _) =>
      case TakeFromBucket(_, now) => TakeTokenIsValid(s.core, now);
      case Answer(_, _, now) => RecordIsValid(s.core, now);
      case CountError(_, _) =>
      case Finish(_, now) => RecordIsValid(s.core, now);
    }
  }

  lemma {:induction false} RunIsValid(s: State, actions: seq<Action>)
    requires s.Valid() && 0.0 < s.core.bucket.rate
    ensures Run(s, actions).Valid()
    ensures |Run(s, actions).threads| == |s.threads|
    decreases |actions|
  {
    hide State.Valid, Step;
    if actions != [] {
      StepIsValid(s, actions[0]);
      StepKeepsSettings(s, actions[0]);
      RunIsValid(Step(s, actions[0]), actions[1..]);
    }
  }

  // ---- conservation ----

  /** How many threads are in a phase accepted by `f`. */
  function Threads(threads: seq<Phase>, f: Phase -> bool): nat {
    if threads == [] then 0
    else Threads(threads[..|threads| - 1], f) + if f(threads[|threads| - 1]) then 1 else 0
  }

  lemma {:induction false} MoveThread(threads: seq<Phase>, t: nat, phase: Phase, f: Phase -> bool)
    requires t < |threads|
    ensures Threads(threads[t := phase], f)
            == Threads(threads, f) - (if f(threads[t]) then 1 else 0) + (if f(phase) then 1 else 0)
    decreases |threads|
  {
    var n := |threads| - 1;
    if t < n {
      MoveThread(threads[..n], t, phase, f);
      assert threads[t := phase][..n] == threads[..n][t := phase];
    } else {
      assert threads[t := phase][..n] == threads[..n];
    }
  }

  const IsUndecided: Phase -> bool := (p: Phase) => p.TurnedAway? || p.Allowed?
  const IsUncounted: Phase -> bool := (p: Phase) => p.Sent? || p.FailureRecorded?
  const MayStillRecord: Phase -> bool := (p: Phase) => p.Allowed? || p.Sent? || p.Counted?

  /** Every call is a breaker rejection, a bucket rejection, an upstream request, or not yet
      counted as one of them; every upstream request is one token and, once answered, one
      increment of the request counter. */
  ghost predicate Conserved(s: State) {
    var st := s.core.stats;
    && st.calls == st.breakerOpen + st.bucketRejections + st.upstream + Threads(s.threads, IsUndecided)
    && st.upstream == RateLimiting.GrantedSince(s.core.bucketLog, 0)
    && st.upstream == |st.requestCount| + Threads(s.threads, IsUncounted)
  }

  lemma {:induction false} StepConserves(s: State, a: Action)
    requires s.Valid() && 0.0 < s.core.bucket.rate && Conserved(s)
    ensures Conserved(Step(s, a))
  {
    hide RateLimiting.Explains, RateLimiting.RateLimited, CircuitBreaking.Agrees, RateLimiting.Available,
         CircuitBreaking.Allows, RateLimiting.GrantedSince, Threads;
    if Enabled(s, a) {
      var phase := Step(s, a).threads[a.thread];
      MoveThread(s.threads, a.thread, phase, IsUndecided);
      MoveThread(s.threads, a.thread, phase, IsUncounted);
      if a.TakeFromBucket? {
        TakeTokenIsValid(s.core, a.now);
        ValidHasRate(s.core);
        RateLimiting.TakeIsValid(s.core.bucket, a.now, 1);
        RateLimiting.GrantedSinceAppend(s.core.bucketLog, RateLimiting.Logged(s.core.bucket, a.now, 1), 0);
      }
    }
  }

  lemma {:induction false} NoneIn(threads: seq<Phase>, f: Phase -> bool)
    requires forall t :: 0 <= t < |threads| ==> !f(threads[t])
    ensures Threads(threads, f) == 0
    decreases |threads|
  {
    if threads != [] {
      NoneIn(threads[..|threads| - 1], f);
    }
  }

  lemma {:induction false} RunConserves(s: State, actions: seq<Action>)
    requires s.Valid() && 0.0 < s.core.bucket.rate && Conserved(s)
    ensures Conserved(Run(s, actions))
    decreases |actions|
  {
    hide State.Valid, Step, Conserved;
    if actions != [] {
      StepIsValid(s, actions[0]);
      StepKeepsSettings(s, actions[0]);
      StepConserves(s, actions[0]);
      RunConserves(Step(s, actions[0]), actions[1..]);
    }
  }

  lemma {:induction false} InitialHolds(threshold: int, cooldown: real, capacity: real, rate: real, threads: nat,
                                        now: real)
    requires 0.0 <= capacity && 0.0 < rate
    ensures Initial(threshold, cooldown, capacity, rate, threads, now).Valid()
    ensures Conserved(Initial(threshold, cooldown, capacity, rate, threads, now))
    ensures var idle := Initial(threshold, cooldown, capacity, rate, threads, now).threads;
            |idle| == threads && forall t :: 0 <= t < threads ==> idle[t].Idle?
  {
    hide RateLimiting.Explains, RateLimiting.RateLimited, CircuitBreaking.Agrees;
    var s := Initial(threshold, cooldown, capacity, rate, threads, now);
    FreshIsValid(threshold, cooldown, capacity, rate, now);
    NoneIn(s.threads, IsUndecided);
    NoneIn(s.threads, IsUncounted);
    assert RateLimiting.GrantedSince(s.core.bucketLog, 1) == 0;
  }

  /** Under any interleaving of any number of threads, from a fresh connector: the breaker's
      fields and the bucket's tokens are what their logs say, the rate limit holds over every
      span of time, and no call, token or request is lost or counted twice. */
  lemma {:induction false} AnyInterleaving(threshold: int, cooldown: real, capacity: real, rate: real,
                                           threads: nat, now: real,
                        actions: seq<Action>)
    requires 0.0 <= capacity && 0.0 < rate
    ensures var s := Run(Initial(threshold, cooldown, capacity, rate, threads, now), actions);
            && CircuitBreaking.Agrees(s.core.breaker, s.core.breakerLog)
            && RateLimiting.Explains(s.core.bucket, s.core.bucketLog)
            && RateLimiting.RateLimited(s.core.bucket.capacity, s.core.bucket.rate, s.core.bucketLog)
            && Conserved(s) && |s.threads| == threads
  {
    hide RateLimiting.Explains, RateLimiting.RateLimited, CircuitBreaking.Agrees, Conserved;
    var s := Initial(threshold, cooldown, capacity, rate, threads, now);
    InitialHolds(threshold, cooldown, capacity, rate, threads, now);
    RunIsValid(s, actions);
    RunConserves(s, actions);
  }

  /** When no thread is inside `_get`, the balance is exact. */
  lemma {:induction false} QuiescentBalance(s: State)
    requires Conserved(s) && forall t :: 0 <= t < |s.threads| ==> s.threads[t].Idle?
    ensures var st := s.core.stats;
            && st.calls == st.breakerOpen + st.bucketRejections + st.upstream
            && st.upstream == RateLimiting.GrantedSince(s.core.bucketLog, 0) == |st.requestCount|
  {
    NoneIn(s.threads, IsUndecided);
    NoneIn(s.threads, IsUncounted);
  }

  // ---- from a trip to the next admission ----

  function Failures(events: seq<CircuitBreaking.Event>): nat {
    if events == [] then 0
    else Failures(events[..|events| - 1]) + if events[|events| - 1].Failed? then 1 else 0
  }

  /** Nothing but rejections and failures. */
  predicate Quiet(events: seq<CircuitBreaking.Event>) {
    forall i :: 0 <= i < |events| ==> events[i].Denied? || events[i].Failed?
  }

  /** What the breaker's log gains in one step. */
  function Gained(s: State, a: Action): (events: seq<CircuitBreaking.Event>)
    requires 0.0 < s.core.bucket.rate
    ensures Step(s, a).core.breakerLog == s.core.breakerLog + events
    ensures |events| <= 1
  {
    if Enabled(s, a) && |s.core.breakerLog| < |Perform(s, a).core.breakerLog|
    then [Perform(s, a).core.breakerLog[|s.core.breakerLog|]]
    else []
  }

  /** What it gains in a run. */
  function GainedInRun(s: State, actions: seq<Action>): (events: seq<CircuitBreaking.Event>)
    requires 0.0 < s.core.bucket.rate
    ensures Run(s, actions).core.breakerLog == s.core.breakerLog + events
    decreases |actions|
  {
    if actions == [] then []
    else
      Gained(s, actions[0]) + GainedInRun(Step(s, actions[0]), actions[1..])
  }

  lemma {:induction false} QuietStep(s: State, a: Action)
    requires 0.0 < s.core.bucket.rate && Quiet(Gained(s, a))
    ensures Threads(Step(s, a).threads, MayStillRecord) + Failures(Gained(s, a)) <= Threads(s.threads, MayStillRecord)
  {
    hide RateLimiting.Available, CircuitBreaking.Allows, Threads;
    if Enabled(s, a) {
      MoveThread(s.threads, a.thread, Step(s, a).threads[a.thread], MayStillRecord);
      assert forall e :: Failures([e]) == if e.Failed? then 1 else 0 by { FailuresOfOne(); }
    }
  }

  lemma {:induction false} FailuresOfOne()
    ensures forall e :: Failures([e]) == if e.Failed? then 1 else 0
  {
    forall e ensures Failures([e]) == if e.Failed? then 1 else 0 {
      assert [e][..0] == [];
    }
  }

  lemma {:induction false} FailuresAdd(xs: seq<CircuitBreaking.Event>, ys: seq<CircuitBreaking.Event>)
    ensures Failures(xs + ys) == Failures(xs) + Failures(ys)
    decreases |ys|
  {
    if ys == [] {
      assert xs + ys == xs;
    } else {
      assert (xs + ys)[..|xs + ys| - 1] == xs + ys[..|ys| - 1];
      FailuresAdd(xs, ys[..|ys| - 1]);
    }
  }

  /** While nobody is admitted and nobody succeeds, each failure uses up one thread that was
      already under way. */
  lemma {:induction false} QuietRun(s: State, actions: seq<Action>)
    requires 0.0 < s.core.bucket.rate && Quiet(GainedInRun(s, actions))
    ensures Threads(Run(s, actions).threads, MayStillRecord) + Failures(GainedInRun(s, actions))
            <= Threads(s.threads, MayStillRecord)
    decreases |actions|
  {
    hide Step, Gained, Threads, MayStillRecord;
    if actions != [] {
      StepKeepsSettings(s, actions[0]);
      var next := Step(s, actions[0]);
      var first, rest := Gained(s, actions[0]), GainedInRun(next, actions[1..]);
      var all := GainedInRun(s, actions);
      assert all == first + rest;
      assert forall i :: 0 <= i < |first| ==> first[i] == all[i];
      assert forall i :: 0 <= i < |rest| ==> rest[i] == all[|first| + i];
      QuietStep(s, actions[0]);
      QuietRun(next, actions[1..]);
      FailuresAdd(first, rest);
    }
  }

  lemma {:induction false} AtMostAll(threads: seq<Phase>, f: Phase -> bool)
    ensures Threads(threads, f) <= |threads|
    decreases |threads|
  {
    if threads != [] {
      AtMostAll(threads[..|threads| - 1], f);
    }
  }

  lemma {:induction false} AllButOne(threads: seq<Phase>, t: nat, f: Phase -> bool)
    requires t < |threads| && !f(threads[t])
    ensures Threads(threads, f) <= |threads| - 1
    decreases |threads|
  {
    var n := |threads| - 1;
    if t < n {
      AllButOne(threads[..n], t, f);
    } else {
      AtMostAll(threads[..n], f);
    }
  }

  /** The action records a failure after which the breaker is open. */
  predicate Trips(s: State, a: Action)
    requires 0.0 < s.core.bucket.rate
  {
    && Enabled(s, a)
    && Gained(s, a) != [] && Gained(s, a)[0].Failed?
    && Step(s, a).core.breaker.openedAt.Some?
  }

  lemma {:induction false} TrippingThreadIsDone(s: State, a: Action)
    requires 0.0 < s.core.bucket.rate && Trips(s, a)
    ensures a.thread < |Step(s, a).threads| && !MayStillRecord(Step(s, a).threads[a.thread])
  {
    hide RateLimiting.Available, CircuitBreaking.Allows;
  }

  /** With M threads, from a trip until the next admission or recorded success at most M - 1
      further failures are recorded. */
  lemma {:induction false} FailuresAfterTrip(s: State, a: Action, actions: seq<Action>)
    requires 0.0 < s.core.bucket.rate && Trips(s, a)
    requires Quiet(GainedInRun(Step(s, a), actions))
    ensures Failures(GainedInRun(Step(s, a), actions)) <= |s.threads| - 1
  {
    hide Step, Gained, Threads, MayStillRecord;
    var next := Step(s, a);
    StepKeepsSettings(s, a);
    TrippingThreadIsDone(s, a);
    AllButOne(next.threads, a.thread, MayStillRecord);
    QuietRun(next, actions);
  }

  lemma {:induction false} QuietKeepsTripped(threshold: int, log: seq<CircuitBreaking.Event>,
                                             events: seq<CircuitBreaking.Event>)
    requires CircuitBreaking.Tripped(threshold, log) && Quiet(events)
    ensures CircuitBreaking.Tripped(threshold, log + events)
    decreases |events|
  {
    if events == [] {
      assert log + events == log;
    } else {
      var init := events[..|events| - 1];
      assert (log + events)[..|log + events| - 1] == log + init;
      QuietKeepsTripped(threshold, log, init);
    }
  }

  lemma {:induction false} TripIsLogged(s: State, a: Action)
    requires s.Valid() && 0.0 < s.core.bucket.rate && Trips(s, a)
    ensures CircuitBreaking.Tripped(Step(s, a).core.breaker.threshold, Step(s, a).core.breakerLog)
  {
    hide RateLimiting.Explains, RateLimiting.RateLimited, Step, Gained;
    StepIsValid(s, a);
  }

  lemma {:induction false} AdmittedIsUndecided(s: State, a: Action)
    requires 0.0 < s.core.bucket.rate && Gained(s, a) == [CircuitBreaking.Admitted(a.now)]
    ensures CircuitBreaking.Allows(s.core.breaker, a.now)
  {
    hide RateLimiting.Taken, RateLimiting.Logged;
  }

  /** ... and that next admission comes no sooner than a cooldown after the last of them. */
  lemma {:induction false} AdmissionAfterTrip(s: State, a: Action, actions: seq<Action>, next: Action)
    requires s.Valid() && 0.0 < s.core.bucket.rate && Trips(s, a)
    requires Quiet(GainedInRun(Step(s, a), actions))
    requires Gained(Run(Step(s, a), actions), next) == [CircuitBreaking.Admitted(next.now)]
    ensures var u := Run(Step(s, a), actions);
            && CircuitBreaking.LatestFailure(u.core.breakerLog).Some?
            && CircuitBreaking.LatestFailure(u.core.breakerLog).value + u.core.breaker.cooldown <= next.now
  {
    hide RateLimiting.Explains, RateLimiting.RateLimited, Step, Run, Gained, GainedInRun, Trips, Quiet;
    var t := Step(s, a);
    var u := Run(t, actions);
    StepIsValid(s, a);
    RunIsValid(t, actions);
    RunKeepsBreaker(t, actions);
    TripIsLogged(s, a);
    QuietKeepsTripped(t.core.breaker.threshold, t.core.breakerLog, GainedInRun(t, actions));
    CircuitBreaking.StreakHasFailure(u.core.breakerLog);
    AdmittedIsUndecided(u, next);
  }

  lemma {:induction false} RunKeepsBreaker(s: State, actions: seq<Action>)
    requires 0.0 < s.core.bucket.rate
    ensures Run(s, actions).core.breaker.threshold == s.core.breaker.threshold
    ensures Run(s, actions).core.breaker.cooldown == s.core.breaker.cooldown
    decreases |actions|
  {
    hide Step;
    if actions != [] {
      StepKeepsSettings(s, actions[0]);
      RunKeepsBreaker(Step(s, actions[0]), actions[1..]);
    }
  }

  // ---- a call that nobody disturbs is `_get` ----

  /** The actions of one call made by thread `t`. */
  function ActionsOf(t: nat, call: Call): seq<Action> {
    [AskBreaker(t, call.askedAt)] + ([CountRejection(t, call.askedAt)] + ([TakeFromBucket(t, call.takenAt)]
    + ([Answer(t, call.outcome, call.answeredAt)] + ([CountError(t, call.answeredAt)]
    + ([Finish(t, call.answeredAt)] + [])))))
  }

  /** The last three of them. */
  function AnswerActions(t: nat, call: Call): seq<Action> {
    [Answer(t, call.outcome, call.answeredAt)] + ([CountError(t, call.answeredAt)]
    + ([Finish(t, call.answeredAt)] + []))
  }

  predicate WellTimed(clock: real, call: Call) {
    clock <= call.askedAt <= call.takenAt <= call.answeredAt
  }

  lemma {:induction false} RunFirst(s: State, a: Action, rest: seq<Action>)
    requires 0.0 < s.core.bucket.rate
    ensures Run(s, [a] + rest) == Run(Step(s, a), rest)
  {
    hide Step;
    StepKeepsSettings(s, a);
    assert ([a] + rest)[1..] == rest;
  }

  lemma {:induction false} EmptyRun(s: State)
    requires 0.0 < s.core.bucket.rate
    ensures Run(s, []) == s
  {
  }

  lemma {:induction false} AnswerSteps(s: State, t: nat, call: Call)
    requires 0.0 < s.core.bucket.rate && s.clock <= call.answeredAt && t < |s.threads| && s.threads[t].Sent?
    ensures var s3 := Step(s, Answer(t, call.outcome, call.answeredAt));
            var s4 := Step(s3, CountError(t, call.answeredAt));
            Step(s4, Finish(t, call.answeredAt))
            == State(Answered(s.core, call).0, s.threads[t := Idle], call.answeredAt)
  {
    hide CircuitBreaking.AfterFailure, CircuitBreaking.AfterSuccess;
    var now, idle := call.answeredAt, s.threads[t := Idle];
    var s3 := Step(s, Answer(t, call.outcome, now));
    var s4 := Step(s3, CountError(t, now));
    match call.outcome
    case TransportError =>
      assert s3 == State(RecordFailure(s.core, now), s.threads[t := FailureRecorded], now);
      assert s3.threads[t := Idle] == idle;
      assert s4 == State(Count(RecordFailure(s.core, now), ErrorLabel), idle, now);
    case Response(status) =>
      assert s3 == State(Count(s.core, StatusLabel(status)), s.threads[t := Counted(status)], now);
      assert s3.threads[t := Idle] == idle;
      assert s4 == s3;
      assert Step(s4, Finish(t, now)) == State(Judge(s4.core, status, now).0, idle, now);
  }

  /** From the point at which the request has been sent. */
  lemma {:induction false} UndisturbedAnswer(s: State, t: nat, call: Call)
    requires 0.0 < s.core.bucket.rate && s.clock <= call.answeredAt && t < |s.threads| && s.threads[t].Sent?
    ensures Run(s, AnswerActions(t, call))
            == State(Answered(s.core, call).0, s.threads[t := Idle], call.answeredAt)
  {
    var a, b, c := Answer(t, call.outcome, call.answeredAt), CountError(t, call.answeredAt), Finish(t, call.answeredAt);
    hide Run, Step, Answered;
    AnswerSteps(s, t, call);
    RunFirst(s, a, [b] + ([c] + []));
    RunFirst(Step(s, a), b, [c] + []);
    RunFirst(Step(Step(s, a), b), c, []);
    EmptyRun(Step(Step(Step(s, a), b), c));
  }

  /** The first three actions: the request is sent, or the call has ended. */
  lemma {:induction false} UndisturbedGuards(s: State, t: nat, call: Call)
    requires 0.0 < s.core.bucket.rate && WellTimed(s.clock, call) && t < |s.threads| && s.threads[t].Idle?
    ensures var s1 := Step(s, AskBreaker(t, call.askedAt));
            var s2 := Step(s1, CountRejection(t, call.askedAt));
            var s3 := Step(s2, TakeFromBucket(t, call.takenAt));
            && s3.clock <= call.answeredAt
            && if s3.threads == s.threads[t := Sent] then Requested(s.core, call) == Answered(s3.core, call)
               else s3.threads == s.threads && Requested(s.core, call).0 == s3.core
  {
    hide RateLimiting.Taken, RateLimiting.Logged, CircuitBreaking.Allows, Answered;
    var (c1, allowed) := Ask(s.core, call.askedAt);
    var s1 := Step(s, AskBreaker(t, call.askedAt));
    StepKeepsSettings(s, AskBreaker(t, call.askedAt));
    assert s1 == State(c1, s.threads[t := if allowed then Allowed else TurnedAway], call.askedAt);
    var s2 := Step(s1, CountRejection(t, call.askedAt));
    StepKeepsSettings(s1, CountRejection(t, call.askedAt));
    var s3 := Step(s2, TakeFromBucket(t, call.takenAt));
    assert s.threads == s.threads[t := Idle] == s1.threads[t := Idle];
    if allowed {
      assert s2 == s1;
      var (c2, wait) := TakeToken(c1, call.takenAt);
      assert s3 == State(c2, s1.threads[t := if wait > 0.0 then Idle else Sent], call.takenAt);
      assert s1.threads[t := Sent] == s.threads[t := Sent];
    } else {
      assert s2 == State(CountOpen(c1), s.threads, call.askedAt);
      assert s3 == s2;
    }
    assert s.threads[t := Sent][t].Sent?;
  }

  lemma {:induction false} IdleStays(s: State, t: nat, call: Call)
    requires 0.0 < s.core.bucket.rate && t < |s.threads| && s.threads[t].Idle?
    ensures Run(s, AnswerActions(t, call)) == s
  {
    var a, b, c := Answer(t, call.outcome, call.answeredAt), CountError(t, call.answeredAt), Finish(t, call.answeredAt);
    hide Run;
    RunFirst(s, a, [b] + ([c] + []));
    RunFirst(s, b, [c] + []);
    RunFirst(s, c, []);
    EmptyRun(s);
  }

  /** Whatever the other threads are in the middle of: the six steps of a call by thread `t`, run
      without interference, are `_get`. */
  lemma {:induction false} UndisturbedCall(s: State, t: nat, call: Call)
    requires 0.0 < s.core.bucket.rate && WellTimed(s.clock, call) && t < |s.threads| && s.threads[t].Idle?
    ensures var u := Run(s, ActionsOf(t, call));
            u.core == Requested(s.core, call).0 && u.threads == s.threads && u.clock <= call.answeredAt
  {
    var ask, count := AskBreaker(t, call.askedAt), CountRejection(t, call.askedAt);
    var take := TakeFromBucket(t, call.takenAt);
    var rest := AnswerActions(t, call);
    assert ActionsOf(t, call) == [ask] + ([count] + ([take] + rest));
    hide Requested, Answered, Step, Run, ActionsOf, AnswerActions;
    UndisturbedGuards(s, t, call);
    RunFirst(s, ask, [count] + ([take] + rest));
    var s1 := Step(s, ask);
    RunFirst(s1, count, [take] + rest);
    var s2 := Step(s1, count);
    RunFirst(s2, take, rest);
    var s3 := Step(s2, take);
    if s3.threads == s.threads[t := Sent] {
      UndisturbedAnswer(s3, t, call);
      assert s3.threads[t := Idle] == s.threads;
    } else {
      IdleStays(s3, t, call);
    }
  }

  /** In particular the interleaved model with one thread is the sequential one. */
  lemma {:induction false} SequentialIsOneThread(core: Core, clock: real, call: Call)
    requires 0.0 < core.bucket.rate && WellTimed(clock, call)
    ensures var s := Run(State(core, [Idle], clock), ActionsOf(0, call));
            s.core == Requested(core, call).0 && s.threads == [Idle] && s.clock <= call.answeredAt
  {
    hide Requested, Run, ActionsOf;
    UndisturbedCall(State(core, [Idle], clock), 0, call);
  }

  /** Wherever a busy thread stands and whatever the upstream answers, it can end its call, leaving
      the other threads where they are. */
  lemma {:induction false} BusyThreadEnds(s: State, t: nat, outcome: Outcome, now: real)
    requires 0.0 < s.core.bucket.rate && s.clock <= now && t < |s.threads| && !s.threads[t].Idle?
    ensures var call := Call(now, now, outcome, now);
            Run(s, [CountRejection(t, now)] + ([TakeFromBucket(t, now)] + AnswerActions(t, call))).threads
            == s.threads[t := Idle]
  {
    hide RateLimiting.Taken, RateLimiting.Logged, CircuitBreaking.Allows, Answered, Run, AnswerActions, Judge;
    var call := Call(now, now, outcome, now);
    var count, take, rest := CountRejection(t, now), TakeFromBucket(t, now), AnswerActions(t, call);
    RunFirst(s, count, [take] + rest);
    var s1 := Step(s, count);
    RunFirst(s1, take, rest);
    var s2 := Step(s1, take);
    assert s2.threads == s.threads[t := s2.threads[t]] && s2.threads[t := Idle] == s.threads[t := Idle];
    if s2.threads[t].Sent? {
      UndisturbedAnswer(s2, t, call);
    } else if s2.threads[t].Idle? {
      IdleStays(s2, t, call);
    } else {
      LateEnd(s2, t, call);
    }
  }

  lemma {:induction false} LateEnd(s: State, t: nat, call: Call)
    requires 0.0 < s.core.bucket.rate && s.clock <= call.answeredAt && t < |s.threads|
    requires s.threads[t].FailureRecorded? || s.threads[t].Counted?
    ensures Run(s, AnswerActions(t, call)).threads == s.threads[t := Idle]
  {
    hide Run, Judge;
    var a, b, c := Answer(t, call.outcome, call.answeredAt), CountError(t, call.answeredAt), Finish(t, call.answeredAt);
    RunFirst(s, a, [b] + ([c] + []));
    assert Step(s, a) == s;
    RunFirst(s, b, [c] + []);
    RunFirst(Step(s, b), c, []);
    EmptyRun(Step(Step(s, b), c));
  }
}
