/** The connector's circuit breaker: two fields of state that agree with a specification over
    the whole log of what its threads did, in the order in which they held its lock. */
module CircuitBreaking {
  import opened Options

  datatype Event =
    | Admitted(time: real)
    | Denied(time: real)
    | Succeeded
    | Failed(time: real)

  datatype Breaker = Breaker(threshold: int, cooldown: real, failures: nat, openedAt: Option<real>)

  function Closed(threshold: int, cooldown: real): Breaker {
    Breaker(threshold, cooldown, 0, None)
  }

  predicate Allows(b: Breaker, now: real) {
    b.openedAt.None? || now - b.openedAt.value >= b.cooldown
  }

  function AfterSuccess(b: Breaker): Breaker {
    b.(failures := 0, openedAt := None)
  }

  function AfterFailure(b: Breaker, now: real): Breaker {
    b.(failures := b.failures + 1,
       openedAt := if b.failures + 1 >= b.threshold then Some(now) else b.openedAt)
  }

  // ---- the specification over the log ----

  /** Failures recorded since the last success. */
  function Streak(log: seq<Event>): nat {
    if log == [] then 0
    else
      var init := log[..|log| - 1];
      match log[|log| - 1]
      case Succeeded => 0
      case Failed(_) => Streak(init) + 1
      case _ => Streak(init)
  }

  /** Time of the latest failure in the log. */
  function LatestFailure(log: seq<Event>): Option<real> {
    if log == [] then None
    else if log[|log| - 1].Failed? then Some(log[|log| - 1].time)
    else LatestFailure(log[..|log| - 1])
  }

  /** The streak has reached the threshold (a threshold below 1 acts as 1). */
  predicate Tripped(threshold: int, log: seq<Event>) {
    1 <= Streak(log) && threshold <= Streak(log)
  }

  /** What the log says about a request for admission. */
  predicate LogAllows(threshold: int, cooldown: real, log: seq<Event>, now: real) {
    Tripped(threshold, log) && LatestFailure(log).Some? ==> cooldown <= now - LatestFailure(log).value
  }

  /** The two fields say what the log says. */
  predicate Agrees(b: Breaker, log: seq<Event>) {
    && b.failures == Streak(log)
    && b.openedAt == if Tripped(b.threshold, log) then LatestFailure(log) else None
  }

  /** What a breaker does on an event. */
  function Next(b: Breaker, e: Event): Breaker {
    match e
    case Succeeded => AfterSuccess(b)
    case Failed(now) => AfterFailure(b, now)
    case _ => b
  }

  lemma {:induction false} AgreesInitially(threshold: int, cooldown: real)
    ensures Agrees(Closed(threshold, cooldown), [])
  {
  }

  lemma {:induction false} AgreesStep(b: Breaker, log: seq<Event>, e: Event)
    requires Agrees(b, log)
    ensures Agrees(Next(b, e), log + [e])
  {
    assert (log + [e])[..|log|] == log;
  }

  lemma {:induction false} StreakHasFailure(log: seq<Event>)
    requires 1 <= Streak(log)
    ensures LatestFailure(log).Some?
  {
    if !log[|log| - 1].Failed? {
      StreakHasFailure(log[..|log| - 1]);
    }
  }

  lemma {:induction false} AllowsIffLogAllows(b: Breaker, log: seq<Event>, now: real)
    requires Agrees(b, log)
    ensures Allows(b, now) <==> LogAllows(b.threshold, b.cooldown, log, now)
  {
    if Tripped(b.threshold, log) {
      StreakHasFailure(log);
    }
  }

  function Replay(b: Breaker, events: seq<Event>): Breaker {
    if events == [] then b else Next(Replay(b, events[..|events| - 1]), events[|events| - 1])
  }

  /** Over any sequence of events, in whatever order the threads produced them. */
  lemma {:induction false} ReplayAgrees(threshold: int, cooldown: real, events: seq<Event>)
    ensures Agrees(Replay(Closed(threshold, cooldown), events), events)
    ensures Replay(Closed(threshold, cooldown), events).threshold == threshold
  {
    if events == [] {
      AgreesInitially(threshold, cooldown);
    } else {
      var init := events[..|events| - 1];
      ReplayAgrees(threshold, cooldown, init);
      AgreesStep(Replay(Closed(threshold, cooldown), init), init, events[|events| - 1]);
      assert init + [events[|events| - 1]] == events;
    }
  }

  class CircuitBreaker {
    const threshold: int
    const cooldown: real
    var failures: nat
    var openedAt: Option<real>
    ghost var log: seq<Event>

    ghost function Model(): Breaker
      reads this
    {
      Breaker(threshold, cooldown, failures, openedAt)
    }

    ghost predicate Valid()
      reads this
    {
      Agrees(Model(), log)
    }

    constructor (threshold: int, cooldown: real)
      ensures Valid() && log == [] && Model() == Closed(threshold, cooldown)
    {
      this.threshold, this.cooldown := threshold, cooldown;
      failures, openedAt := 0, None;
      log := [];
    }

    method Allow(now: real) returns (allowed: bool)
      requires Valid()
      modifies this
      ensures Valid() && Model() == old(Model())
      ensures allowed == Allows(old(Model()), now)
      ensures allowed <==> LogAllows(threshold, cooldown, old(log), now)
      ensures log == old(log) + [if allowed then Admitted(now) else Denied(now)]
    {
      AllowsIffLogAllows(Model(), log, now);
      if openedAt == None {
        allowed := true;
      } else if now - openedAt.value >= cooldown {
        allowed := true;
      } else {
        allowed := false;
      }
      ghost var e := if allowed then Admitted(now) else Denied(now);
      AgreesStep(Model(), log, e);
      log := log + [e];
    }

    method RecordSuccess()
      requires Valid()
      modifies this
      ensures Valid() && Model() == AfterSuccess(old(Model()))
      ensures log == old(log) + [Succeeded]
    {
      AgreesStep(Model(), log, Succeeded);
      failures := 0;
      openedAt := None;
      log := log + [Succeeded];
    }

    method RecordFailure(now: real)
      requires Valid()
      modifies this
      ensures Valid() && Model() == AfterFailure(old(Model()), now)
      ensures log == old(log) + [Failed(now)]
    {
      AgreesStep(Model(), log, Failed(now));
      failures := failures + 1;
      if failures >= threshold {
        openedAt := Some(now);
      }
      log := log + [Failed(now)];
    }
  }
}
