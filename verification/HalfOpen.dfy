/** The breaker once its cooldown has passed: how many probes go out before an outcome is
    recorded, under any interleaving of the threads that share the connector. */
module HalfOpen {
  import CircuitBreaking
  import RateLimiting
  import opened Connector
  import opened ConnectorThreads

  /** No outcome among them. */
  predicate Unrecorded(events: seq<CircuitBreaking.Event>) {
    forall i :: 0 <= i < |events| ==> events[i].Admitted? || events[i].Denied?
  }

  function Admissions(events: seq<CircuitBreaking.Event>): nat {
    if events == [] then 0
    else Admissions(events[..|events| - 1]) + if events[|events| - 1].Admitted? then 1 else 0
  }

  function Recorded(events: seq<CircuitBreaking.Event>): nat {
    if events == [] then 0
    else
      Recorded(events[..|events| - 1])
      + if events[|events| - 1].Failed? || events[|events| - 1].Succeeded? then 1 else 0
  }

  /** How often a thread asks in a run. */
  function Asks(s: State, actions: seq<Action>): nat
    requires 0.0 < s.core.bucket.rate
    decreases |actions|
  {
    if actions == [] then 0
    else
      (if Enabled(s, actions[0]) && actions[0].AskBreaker? then 1 else 0)
      + Asks(Step(s, actions[0]), actions[1..])
  }

  lemma {:induction false} CountsAdd(xs: seq<CircuitBreaking.Event>, ys: seq<CircuitBreaking.Event>)
    ensures Admissions(xs + ys) == Admissions(xs) + Admissions(ys)
    ensures Recorded(xs + ys) == Recorded(xs) + Recorded(ys)
    decreases |ys|
  {
    if ys == [] {
      assert xs + ys == xs;
    } else {
      assert (xs + ys)[..|xs + ys| - 1] == xs + ys[..|ys| - 1];
      CountsAdd(xs, ys[..|ys| - 1]);
    }
  }

  lemma {:induction false} CountsOfOne(e: CircuitBreaking.Event)
    ensures Admissions([e]) == if e.Admitted? then 1 else 0
    ensures Recorded([e]) == if e.Failed? || e.Succeeded? then 1 else 0
  {
    assert [e][..0] == [];
  }

  // ---- as many probes as the threads ask for ----

  /** As long as nothing is recorded, the door stays open and every asking thread gets in. */
  lemma {:induction false} OpenDoorStep(s: State, a: Action)
    requires 0.0 < s.core.bucket.rate && CircuitBreaking.Allows(s.core.breaker, s.clock)
    requires Unrecorded(Gained(s, a))
    ensures CircuitBreaking.Allows(Step(s, a).core.breaker, Step(s, a).clock)
    ensures Admissions(Gained(s, a)) == if Enabled(s, a) && a.AskBreaker? then 1 else 0
  {
    hide RateLimiting.Available;
    if Gained(s, a) != [] {
      CountsOfOne(Gained(s, a)[0]);
      assert Gained(s, a) == [Gained(s, a)[0]];
    }
  }

  /** From a moment at which the breaker admits, until the next outcome is recorded: exactly as
      many probes go out as threads ask, so a single one if and only if a single one asks. */
  lemma {:induction false} ProbesAreAsks(s: State, actions: seq<Action>)
    requires 0.0 < s.core.bucket.rate && CircuitBreaking.Allows(s.core.breaker, s.clock)
    requires Unrecorded(GainedInRun(s, actions))
    ensures Admissions(GainedInRun(s, actions)) == Asks(s, actions)
    ensures Admissions(GainedInRun(s, actions)) <= 1 <==> Asks(s, actions) <= 1
    decreases |actions|
  {
    hide Step, Gained, CircuitBreaking.Allows;
    if actions != [] {
      StepKeepsSettings(s, actions[0]);
      var next := Step(s, actions[0]);
      var first, rest := Gained(s, actions[0]), GainedInRun(next, actions[1..]);
      var all := GainedInRun(s, actions);
      assert all == first + rest;
      assert forall i :: 0 <= i < |first| ==> first[i] == all[i];
      assert forall i :: 0 <= i < |rest| ==> rest[i] == all[|first| + i];
      OpenDoorStep(s, actions[0]);
      ProbesAreAsks(next, actions[1..]);
      CountsAdd(first, rest);
    }
  }

  // ---- where the probes go ----

  /** A thread that was under way leaves without recording an outcome: refused by the bucket, or
      answered with a 4xx that counts for nothing. */
  predicate TurnsBack(s: State, a: Action)
    requires 0.0 < s.core.bucket.rate
  {
    && Enabled(s, a)
    && MayStillRecord(s.threads[a.thread]) && !MayStillRecord(Step(s, a).threads[a.thread])
    && Gained(s, a) == []
  }

  function TurnedBack(s: State, actions: seq<Action>): nat
    requires 0.0 < s.core.bucket.rate
    decreases |actions|
  {
    if actions == [] then 0
    else (if TurnsBack(s, actions[0]) then 1 else 0) + TurnedBack(Step(s, actions[0]), actions[1..])
  }

  lemma {:induction false} StepAccounts(s: State, a: Action)
    requires 0.0 < s.core.bucket.rate
    ensures Threads(Step(s, a).threads, MayStillRecord) + Recorded(Gained(s, a)) + (if TurnsBack(s, a) then 1 else 0)
            == Threads(s.threads, MayStillRecord) + Admissions(Gained(s, a))
  {
    hide RateLimiting.Available, CircuitBreaking.Allows, Threads;
    if Enabled(s, a) {
      MoveThread(s.threads, a.thread, Step(s, a).threads[a.thread], MayStillRecord);
      if Gained(s, a) != [] {
        CountsOfOne(Gained(s, a)[0]);
        assert Gained(s, a) == [Gained(s, a)[0]];
      }
    }
  }

  /** Over any run: every admitted thread has recorded one outcome, was turned back, or is still
      under way. */
  lemma {:induction false} AdmissionsBalance(s: State, actions: seq<Action>)
    requires 0.0 < s.core.bucket.rate
    ensures Threads(Run(s, actions).threads, MayStillRecord) + Recorded(GainedInRun(s, actions))
            + TurnedBack(s, actions)
            == Threads(s.threads, MayStillRecord) + Admissions(GainedInRun(s, actions))
    decreases |actions|
  {
    hide Step, Gained, Threads, MayStillRecord, TurnsBack;
    if actions != [] {
      StepKeepsSettings(s, actions[0]);
      StepAccounts(s, actions[0]);
      AdmissionsBalance(Step(s, actions[0]), actions[1..]);
      CountsAdd(Gained(s, actions[0]), GainedInRun(Step(s, actions[0]), actions[1..]));
    }
  }

  lemma {:induction false} NothingRecorded(events: seq<CircuitBreaking.Event>)
    requires Unrecorded(events)
    ensures Recorded(events) == 0
  {
    if events != [] {
      NothingRecorded(events[..|events| - 1]);
    }
  }

  /** Until the next outcome is recorded, if no probe is turned back, at most as many go out as
      there are threads not yet under way. */
  lemma {:induction false} ProbesAtMostThreads(s: State, actions: seq<Action>)
    requires 0.0 < s.core.bucket.rate
    requires Unrecorded(GainedInRun(s, actions)) && TurnedBack(s, actions) == 0
    ensures Admissions(GainedInRun(s, actions)) <= |s.threads| - Threads(s.threads, MayStillRecord)
  {
    hide Step, Gained, Threads, MayStillRecord;
    AdmissionsBalance(s, actions);
    NothingRecorded(GainedInRun(s, actions));
    RunKeepsThreads(s, actions);
    AtMostAll(Run(s, actions).threads, MayStillRecord);
  }

  lemma {:induction false} RunKeepsThreads(s: State, actions: seq<Action>)
    requires 0.0 < s.core.bucket.rate
    ensures |Run(s, actions).threads| == |s.threads|
    decreases |actions|
  {
    hide Step;
    if actions != [] {
      StepKeepsSettings(s, actions[0]);
      RunKeepsThreads(Step(s, actions[0]), actions[1..]);
    }
  }

  // ---- is there a bound? ----

  lemma {:induction false} GainedSplit(s: State, before: seq<Action>, after: seq<Action>)
    requires 0.0 < s.core.bucket.rate
    ensures Run(s, before + after) == Run(Run(s, before), after)
    ensures GainedInRun(s, before + after) == GainedInRun(s, before) + GainedInRun(Run(s, before), after)
    decreases |before|
  {
    hide Step, Gained;
    if before == [] {
      assert before + after == after;
    } else {
      StepKeepsSettings(s, before[0]);
      assert (before + after)[1..] == before[1..] + after;
      GainedSplit(Step(s, before[0]), before[1..], after);
    }
  }

  /** Thread 0 asks and comes back without an outcome: answered with a 404 if the bucket has a
      token, refused by the bucket (so that the last two actions do not happen) if not. */
  function Lap(now: real): seq<Action> {
    [AskBreaker(0, now)] + ([TakeFromBucket(0, now)]
    + ([Answer(0, Response(404), now)] + ([Finish(0, now)] + [])))
  }

  /** Thread 0 can ask, and the breaker admits. */
  predicate Askable(s: State) {
    && 0.0 < s.core.bucket.rate && CircuitBreaking.Allows(s.core.breaker, s.clock)
    && 1 <= |s.threads| && s.threads[0].Idle?
  }

  lemma {:induction false} GainedFirst(s: State, a: Action, rest: seq<Action>)
    requires 0.0 < s.core.bucket.rate
    ensures Run(s, [a] + rest) == Run(Step(s, a), rest)
    ensures GainedInRun(s, [a] + rest) == Gained(s, a) + GainedInRun(Step(s, a), rest)
  {
    hide Step, Gained;
    StepKeepsSettings(s, a);
    assert ([a] + rest)[1..] == rest;
  }

  lemma {:induction false} LapSteps(s: State)
    requires Askable(s)
    ensures var now := s.clock;
            var s1 := Step(s, AskBreaker(0, now));
            var s2 := Step(s1, TakeFromBucket(0, now));
            var s3 := Step(s2, Answer(0, Response(404), now));
            var s4 := Step(s3, Finish(0, now));
            && Gained(s, AskBreaker(0, now)) == [CircuitBreaking.Admitted(now)]
            && Gained(s1, TakeFromBucket(0, now)) == []
            && Gained(s2, Answer(0, Response(404), now)) == []
            && Gained(s3, Finish(0, now)) == []
            && Askable(s4) && s4.clock == now
  {
    hide RateLimiting.Available, CircuitBreaking.Allows;
  }

  lemma {:induction false} LapProbes(s: State)
    requires Askable(s)
    ensures GainedInRun(s, Lap(s.clock)) == [CircuitBreaking.Admitted(s.clock)]
    ensures Askable(Run(s, Lap(s.clock))) && Run(s, Lap(s.clock)).clock == s.clock
  {
    hide Step, Gained, Run, GainedInRun;
    var now := s.clock;
    var a, b, c, d := AskBreaker(0, now), TakeFromBucket(0, now), Answer(0, Response(404), now), Finish(0, now);
    LapSteps(s);
    GainedFirst(s, a, [b] + ([c] + ([d] + [])));
    var s1 := Step(s, a);
    GainedFirst(s1, b, [c] + ([d] + []));
    var s2 := Step(s1, b);
    GainedFirst(s2, c, [d] + []);
    var s3 := Step(s2, c);
    GainedFirst(s3, d, []);
    NoActions(Step(s3, d));
  }

  lemma {:induction false} NoActions(s: State)
    requires 0.0 < s.core.bucket.rate
    ensures Run(s, []) == s && GainedInRun(s, []) == []
  {
  }

  /** One thread alone can be let through any number of times before an outcome is recorded. */
  lemma {:induction false} ManyProbes(s: State, n: nat) returns (actions: seq<Action>)
    requires Askable(s)
    ensures Unrecorded(GainedInRun(s, actions)) && Admissions(GainedInRun(s, actions)) == n
    decreases n
  {
    hide Run, GainedInRun, Askable, Lap;
    assert 0.0 < s.core.bucket.rate by { AskableHasRate(s); }
    if n == 0 {
      actions := [];
      NoActions(s);
    } else {
      LapProbes(s);
      var rest := ManyProbes(Run(s, Lap(s.clock)), n - 1);
      actions := Lap(s.clock) + rest;
      GainedSplit(s, Lap(s.clock), rest);
      CountsOfOne(CircuitBreaking.Admitted(s.clock));
      CountsAdd([CircuitBreaking.Admitted(s.clock)], GainedInRun(Run(s, Lap(s.clock)), rest));
    }
  }

  lemma {:induction false} AskableHasRate(s: State)
    requires Askable(s)
    ensures 0.0 < s.core.bucket.rate
  {
  }

  lemma {:induction false} NobodyAsks(s: State, actions: seq<Action>)
    requires 0.0 < s.core.bucket.rate && s.threads == []
    ensures Asks(s, actions) == 0
    decreases |actions|
  {
    hide Perform;
    if actions != [] {
      NobodyAsks(s, actions[1..]);
    }
  }

  /** The promise of one probe, and of any other number of them, for every run from a moment at
      which the breaker admits and all threads are idle: until an outcome is recorded, no bound
      holds unless there is no thread at all. */
  lemma {:induction false} NoBoundOnProbes(s: State, bound: nat)
    requires 0.0 < s.core.bucket.rate && CircuitBreaking.Allows(s.core.breaker, s.clock)
    requires forall t :: 0 <= t < |s.threads| ==> s.threads[t].Idle?
    ensures (forall actions :: Unrecorded(GainedInRun(s, actions)) ==> Admissions(GainedInRun(s, actions)) <= bound)
            <==> |s.threads| == 0
  {
    hide GainedInRun, Admissions, Asks, Unrecorded, CircuitBreaking.Allows;
    if |s.threads| == 0 {
      forall actions | Unrecorded(GainedInRun(s, actions)) ensures Admissions(GainedInRun(s, actions)) <= bound {
        ProbesAreAsks(s, actions);
        NobodyAsks(s, actions);
      }
    } else {
      var actions := ManyProbes(s, bound + 1);
    }
  }

  /** The refinement for runs in which no probe is turned back (by the bucket, or by a 4xx that
      counts for nothing): there, one probe at most goes out in every run exactly if the connector
      has no more than one thread. */
  lemma {:induction false} OneProbeIffOneThread(s: State)
    requires 0.0 < s.core.bucket.rate && CircuitBreaking.Allows(s.core.breaker, s.clock)
    requires forall t :: 0 <= t < |s.threads| ==> s.threads[t].Idle?
    ensures (forall actions :: Unrecorded(GainedInRun(s, actions)) && TurnedBack(s, actions) == 0
              ==> Admissions(GainedInRun(s, actions)) <= 1)
            <==> |s.threads| <= 1
  {
    hide Step, Gained, GainedInRun, Threads, MayStillRecord, TurnedBack, CircuitBreaking.Allows;
    if |s.threads| <= 1 {
      forall actions | Unrecorded(GainedInRun(s, actions)) && TurnedBack(s, actions) == 0
        ensures Admissions(GainedInRun(s, actions)) <= 1
      {
        ProbesAtMostThreads(s, actions);
      }
    } else {
      TwoProbes(s);
    }
  }

  lemma {:induction false} TwoProbes(s: State)
    requires 0.0 < s.core.bucket.rate && CircuitBreaking.Allows(s.core.breaker, s.clock)
    requires 2 <= |s.threads| && s.threads[0].Idle? && s.threads[1].Idle?
    ensures var actions := [AskBreaker(0, s.clock), AskBreaker(1, s.clock)];
            && Unrecorded(GainedInRun(s, actions)) && TurnedBack(s, actions) == 0
            && Admissions(GainedInRun(s, actions)) == 2
  {
    hide CircuitBreaking.Allows;
    var a, b := AskBreaker(0, s.clock), AskBreaker(1, s.clock);
    var e, next := CircuitBreaking.Admitted(s.clock), Step(s, a);
    assert Gained(s, a) == [e] && Gained(next, b) == [e];
    assert [a, b][1..] == [b] && [b][1..] == [];
    assert GainedInRun(next, [b]) == [e] + GainedInRun(Step(next, b), []);
    assert GainedInRun(s, [a, b]) == [e] + [e];
    assert TurnedBack(next, [b]) == TurnedBack(Step(next, b), []);
    CountsOfOne(e);
    CountsAdd([e], [e]);
  }

  // ---- all threads at once ----

  /** All threads from `k` on ask in turn. */
  function AskAll(k: nat, threads: nat, now: real): seq<Action>
    decreases threads - k
  {
    if threads <= k then [] else [AskBreaker(k, now)] + AskAll(k + 1, threads, now)
  }

  /** Once the cooldown has passed, nothing limits the probes: all threads are admitted. */
  lemma {:induction false} HalfOpenAdmitsAll(s: State, k: nat, now: real)
    requires 0.0 < s.core.bucket.rate && s.clock <= now && CircuitBreaking.Allows(s.core.breaker, now)
    requires forall t :: k <= t < |s.threads| ==> s.threads[t].Idle?
    ensures var u := Run(s, AskAll(k, |s.threads|, now));
            && |u.threads| == |s.threads|
            && (forall t :: 0 <= t < |s.threads| ==> u.threads[t] == if k <= t then Allowed else s.threads[t])
            && u.core.breaker == s.core.breaker && u.core.bucket == s.core.bucket
            && u.core.stats.upstream == s.core.stats.upstream
            && u.clock == if k < |s.threads| then now else s.clock
    decreases |s.threads| - k
  {
    hide CircuitBreaking.Allows;
    if k < |s.threads| {
      var a := AskBreaker(k, now);
      var rest := AskAll(k + 1, |s.threads|, now);
      assert AskAll(k, |s.threads|, now) == [a] + rest;
      assert Run(s, [a] + rest) == Run(Step(s, a), rest) by { assert ([a] + rest)[1..] == rest; }
      HalfOpenAdmitsAll(Step(s, a), k + 1, now);
    }
  }
}
