/** One guarded request to an upstream: breaker, then bucket, then the call and its outcome. */
module Connector {
  import opened Options
  import CircuitBreaking
  import RateLimiting

  type Breaker = CircuitBreaking.Breaker
  type Bucket = RateLimiting.Bucket

  /** What the upstream does when it is asked. */
  datatype Outcome =
    | TransportError
    | Response(status: int)

  /** Labels of the request counter. */
  datatype Label =
    | ErrorLabel
    | StatusLabel(status: int)

  datatype Result =
    | CircuitOpen
    | LocallyLimited(retryAfter: real)
    | TransportFailure
    | UpstreamLimited
    | UpstreamFailure(status: int)
    | ClientError(status: int)
    | Payload(status: int)

  /** Outcomes that count against the breaker. */
  predicate IsFailure(o: Outcome) {
    o.TransportError? || o.status == 429 || o.status >= 500
  }

  /** Every request made so far, and how it was accounted for. `breakerOpen` and `requestCount`
      are the two exported counters; a labelled counter is the multiset of its increments. */
  datatype Stats = Stats(
    calls: nat,
    breakerOpen: nat,
    bucketRejections: nat,
    upstream: nat,
    requestCount: multiset<Label>)

  /** A connector's shared state, with the logs of its two guards. */
  datatype Core = Core(
    breaker: Breaker,
    bucket: Bucket,
    stats: Stats,
    breakerLog: seq<CircuitBreaking.Event>,
    bucketLog: seq<RateLimiting.Event>)
  {
    ghost predicate Valid() {
      && CircuitBreaking.Agrees(breaker, breakerLog)
      && RateLimiting.Explains(bucket, bucketLog)
      && RateLimiting.RateLimited(bucket.capacity, bucket.rate, bucketLog)
    }
  }

  function Fresh(threshold: int, cooldown: real, capacity: real, rate: real, now: real): Core {
    Core(CircuitBreaking.Closed(threshold, cooldown), RateLimiting.Full(capacity, rate, now),
         Stats(0, 0, 0, 0, multiset{}), [], [RateLimiting.Event(now, 0)])
  }

  // ---- the atomic steps of a request ----

  /** `breaker.allow()`, at which a call begins. */
  function Ask(c: Core, now: real): (Core, bool) {
    if CircuitBreaking.Allows(c.breaker, now) then
      (c.(stats := c.stats.(calls := c.stats.calls + 1),
          breakerLog := c.breakerLog + [CircuitBreaking.Admitted(now)]), true)
    else
      (c.(stats := c.stats.(calls := c.stats.calls + 1),
          breakerLog := c.breakerLog + [CircuitBreaking.Denied(now)]), false)
  }

  /** The counter of rejections, incremented once `allow()` has returned. */
  function CountOpen(c: Core): Core {
    c.(stats := c.stats.(breakerOpen := c.stats.breakerOpen + 1))
  }

  /** `bucket.take()`; a granted token is spent on one upstream request. */
  function TakeToken(c: Core, now: real): (Core, real)
    requires 0.0 < c.bucket.rate
  {
    var (b, wait) := RateLimiting.Taken(c.bucket, now, 1);
    var log := c.bucketLog + [RateLimiting.Logged(c.bucket, now, 1)];
    if wait > 0.0 then
      (c.(bucket := b, bucketLog := log, stats := c.stats.(bucketRejections := c.stats.bucketRejections + 1)), wait)
    else
      (c.(bucket := b, bucketLog := log, stats := c.stats.(upstream := c.stats.upstream + 1)), wait)
  }

  function Count(c: Core, l: Label): Core {
    c.(stats := c.stats.(requestCount := c.stats.requestCount + multiset{l}))
  }

  function RecordFailure(c: Core, now: real): Core {
    c.(breaker := CircuitBreaking.AfterFailure(c.breaker, now),
       breakerLog := c.breakerLog + [CircuitBreaking.Failed(now)])
  }

  function RecordSuccess(c: Core): Core {
    c.(breaker := CircuitBreaking.AfterSuccess(c.breaker),
       breakerLog := c.breakerLog + [CircuitBreaking.Succeeded])
  }

  /** What a response means, once it has been counted. */
  function Judge(c: Core, status: int, now: real): (Core, Result) {
    if status == 429 then (RecordFailure(c, now), UpstreamLimited)
    else if status >= 500 then (RecordFailure(c, now), UpstreamFailure(status))
    else if status >= 400 then (c, ClientError(status))
    else (RecordSuccess(c), Payload(status))
  }

  /** One call: the times at which its three steps read the clock, and what the upstream would
      answer if it were asked. */
  datatype Call = Call(askedAt: real, takenAt: real, outcome: Outcome, answeredAt: real)

  /** From the moment the request is sent. */
  function Answered(c: Core, call: Call): (Core, Result) {
    match call.outcome
    case TransportError =>
      (Count(RecordFailure(c, call.answeredAt), ErrorLabel), TransportFailure)
    case Response(status) =>
      Judge(Count(c, StatusLabel(status)), status, call.answeredAt)
  }

  /** `_get`, run by itself. */
  function Requested(c: Core, call: Call): (r: (Core, Result))
    requires 0.0 < c.bucket.rate
    ensures r.0.bucket.rate == c.bucket.rate
  {
    var (c1, allowed) := Ask(c, call.askedAt);
    if !allowed then (CountOpen(c1), CircuitOpen)
    else
      var (c2, wait) := TakeToken(c1, call.takenAt);
      if wait > 0.0 then (c2, LocallyLimited(wait))
      else Answered(c2, call)
  }

  // ---- the steps keep the guards in agreement with their logs ----

  lemma {:induction false} FreshIsValid(threshold: int, cooldown: real, capacity: real, rate: real, now: real)
    requires 0.0 <= capacity && 0.0 < rate
    ensures Fresh(threshold, cooldown, capacity, rate, now).Valid()
  {
    hide RateLimiting.Explains, RateLimiting.RateLimited;
    CircuitBreaking.AgreesInitially(threshold, cooldown);
    RateLimiting.ExplainsFull(capacity, rate, now);
    RateLimiting.FreshIsRateLimited(capacity, rate, now);
  }

  lemma {:induction false} ValidHasRate(c: Core)
    requires c.Valid()
    ensures 0.0 < c.bucket.rate && c.bucket.Valid()
  {
    RateLimiting.ExplainsValid(c.bucket, c.bucketLog);
  }

  lemma {:induction false} AskIsValid(c: Core, now: real)
    requires c.Valid()
    ensures Ask(c, now).0.Valid()
    ensures Ask(c, now).1 <==> CircuitBreaking.LogAllows(c.breaker.threshold, c.breaker.cooldown, c.breakerLog, now)
  {
    hide RateLimiting.Explains, RateLimiting.RateLimited, CircuitBreaking.Agrees, CircuitBreaking.LogAllows;
    CircuitBreaking.AllowsIffLogAllows(c.breaker, c.breakerLog, now);
    CircuitBreaking.AgreesStep(c.breaker, c.breakerLog, CircuitBreaking.Admitted(now));
    CircuitBreaking.AgreesStep(c.breaker, c.breakerLog, CircuitBreaking.Denied(now));
  }

  lemma {:induction false} TakeTokenIsValid(c: Core, now: real)
    requires c.Valid() && c.bucket.last <= now
    ensures 0.0 < c.bucket.rate
    ensures TakeToken(c, now).0.Valid()
    ensures TakeToken(c, now).1 > 0.0 <==> !RateLimiting.Grants(c.bucket, now, 1)
  {
    hide RateLimiting.Explains, RateLimiting.RateLimited, CircuitBreaking.Agrees;
    ValidHasRate(c);
    RateLimiting.TakeIsValid(c.bucket, now, 1);
    RateLimiting.ExplainsStep(c.bucket, c.bucketLog, now, 1);
    RateLimiting.RateLimitedStep(c.bucket, c.bucketLog, now, 1);
  }

  lemma {:induction false} RecordIsValid(c: Core, now: real)
    requires c.Valid()
    ensures RecordFailure(c, now).Valid() && RecordSuccess(c).Valid()
  {
    hide RateLimiting.Explains, RateLimiting.RateLimited, CircuitBreaking.Agrees;
    CircuitBreaking.AgreesStep(c.breaker, c.breakerLog, CircuitBreaking.Failed(now));
    CircuitBreaking.AgreesStep(c.breaker, c.breakerLog, CircuitBreaking.Succeeded);
  }

  // ---- a call, in terms of the whole history ----

  /** The breaker's log admits the call. */
  predicate Admitted(c: Core, call: Call) {
    CircuitBreaking.LogAllows(c.breaker.threshold, c.breaker.cooldown, c.breakerLog, call.askedAt)
  }

  /** The breaker admits it and every window of the bucket's log has room for it. */
  predicate IsSent(c: Core, call: Call) {
    Admitted(c, call)
    && RateLimiting.AllWindowsPermit(c.bucket.capacity, c.bucket.rate, c.bucketLog, call.takenAt, 1)
  }

  /** Which result a call has is decided by the two logs and the upstream's answer. */
  lemma {:induction false} ResultFollowsHistory(c: Core, call: Call)
    requires c.Valid() && c.bucket.last <= call.takenAt
    ensures 0.0 < c.bucket.rate
    ensures var result := Requested(c, call).1;
            && (result.CircuitOpen? <==> !Admitted(c, call))
            && (result.LocallyLimited? <==> Admitted(c, call) && !IsSent(c, call))
            && (result.TransportFailure? <==> IsSent(c, call) && call.outcome.TransportError?)
            && (result.UpstreamLimited? <==> IsSent(c, call) && call.outcome == Response(429))
            && (forall status :: result == UpstreamFailure(status) <==>
                  IsSent(c, call) && call.outcome == Response(status) && 500 <= status)
            && (forall status :: result == ClientError(status) <==>
                  IsSent(c, call) && call.outcome == Response(status) && 400 <= status < 500 && status != 429)
            && (forall status :: result == Payload(status) <==>
                  IsSent(c, call) && call.outcome == Response(status) && status < 400)
            && (IsSent(c, call) ==>
                  (IsFailure(call.outcome)
                   <==> result.TransportFailure? || result.UpstreamLimited? || result.UpstreamFailure?))
  {
    hide RateLimiting.AllWindowsPermit, CircuitBreaking.LogAllows, RateLimiting.Explains, RateLimiting.RateLimited,
         CircuitBreaking.Agrees, RateLimiting.Logged;
    ValidHasRate(c);
    CircuitBreaking.AllowsIffLogAllows(c.breaker, c.breakerLog, call.askedAt);
    RateLimiting.GrantsIffAllWindows(c.bucket, c.bucketLog, call.takenAt, 1);
    RateLimiting.TakeIsValid(c.bucket, call.takenAt, 1);
  }

  /** What a call leaves behind: a breaker rejection spends no token and touches neither guard, a
      bucket rejection leaves the breaker alone, and a request that is sent is counted once, under
      its own label, moving the breaker by its outcome. */
  lemma {:induction false} CallAccounts(c: Core, call: Call)
    requires c.Valid() && c.bucket.last <= call.takenAt
    ensures 0.0 < c.bucket.rate
    ensures var d := Requested(c, call).0;
            var (before, after) := (c.stats, d.stats);
            && after.calls == before.calls + 1
            && after.breakerOpen == before.breakerOpen + (if Admitted(c, call) then 0 else 1)
            && after.upstream == before.upstream + (if IsSent(c, call) then 1 else 0)
            && (after.requestCount == before.requestCount
                + if !IsSent(c, call) then multiset{}
                  else if call.outcome.TransportError? then multiset{ErrorLabel}
                  else multiset{StatusLabel(call.outcome.status)})
            && (!Admitted(c, call) ==> d.bucket == c.bucket)
            && (!IsSent(c, call) ==> d.breaker == c.breaker)
            && (IsSent(c, call) ==>
                  match call.outcome
                  case TransportError => d.breaker == CircuitBreaking.AfterFailure(c.breaker, call.answeredAt)
                  case Response(status) =>
                    && (status == 429 || 500 <= status ==>
                          d.breaker == CircuitBreaking.AfterFailure(c.breaker, call.answeredAt))
                    && (400 <= status < 500 && status != 429 ==> d.breaker == c.breaker)
                    && (status < 400 ==> d.breaker == CircuitBreaking.AfterSuccess(c.breaker)))
  {
    hide RateLimiting.AllWindowsPermit, CircuitBreaking.LogAllows, RateLimiting.Explains, RateLimiting.RateLimited,
         CircuitBreaking.Agrees, RateLimiting.Logged, CircuitBreaking.AfterFailure, CircuitBreaking.AfterSuccess;
    ValidHasRate(c);
    CircuitBreaking.AllowsIffLogAllows(c.breaker, c.breakerLog, call.askedAt);
    RateLimiting.GrantsIffAllWindows(c.bucket, c.bucketLog, call.takenAt, 1);
    RateLimiting.TakeIsValid(c.bucket, call.takenAt, 1);
  }

  /** A local refusal carries the exact time to wait: however much is polled in between as long as
      nothing is granted, the windows of the bucket's log permit the call from then on and not before. */
  lemma {:induction false} RetryAfterIsExact(c: Core, call: Call, polls: seq<RateLimiting.Request>, retry: real)
    requires c.Valid() && c.bucket.last <= call.takenAt && 1.0 <= c.bucket.capacity
    requires 0.0 < c.bucket.rate && Requested(c, call).1.LocallyLimited?
    requires RateLimiting.ClockFrom(call.takenAt, polls + [RateLimiting.Request(retry, 1)])
    requires RateLimiting.AllRefused(Requested(c, call).0.bucket, polls)
    ensures var (d, result) := Requested(c, call);
            && 0.0 < result.retryAfter
            && (RateLimiting.AllWindowsPermit(c.bucket.capacity, c.bucket.rate,
                  RateLimiting.History(d.bucket, d.bucketLog, polls), retry, 1)
                <==> call.takenAt + result.retryAfter <= retry)
  {
    hide RateLimiting.AllWindowsPermit, RateLimiting.Explains, RateLimiting.RateLimited, RateLimiting.Available,
         RateLimiting.AllRefused, CircuitBreaking.Agrees, CircuitBreaking.Allows;
    ValidHasRate(c);
    var b, t := c.bucket, call.takenAt;
    var (d, result) := Requested(c, call);
    RateLimiting.TakeIsValid(b, t, 1);
    assert d.bucket == RateLimiting.Taken(b, t, 1).0 && result.retryAfter == RateLimiting.Taken(b, t, 1).1;
    RateLimiting.ExplainsStep(b, c.bucketLog, t, 1);
    RateLimiting.ClockSplit(d.bucket, polls, [RateLimiting.Request(retry, 1)]);
    RateLimiting.ExplainsRun(d.bucket, d.bucketLog, polls);
    RateLimiting.WaitIsExact(b, t, 1, polls, retry);
    var last := RateLimiting.Run(d.bucket, polls);
    RateLimiting.ExplainsValid(last, RateLimiting.History(d.bucket, d.bucketLog, polls));
    RateLimiting.GrantsIffAllWindows(last, RateLimiting.History(d.bucket, d.bucketLog, polls), retry, 1);
    RateLimiting.TakeIsValid(last, retry, 1);
  }

  /** In particular when nobody asks in between. */
  lemma {:induction false} RetryAfterOnItsOwn(c: Core, call: Call, retry: real)
    requires c.Valid() && c.bucket.last <= call.takenAt <= retry && 1.0 <= c.bucket.capacity
    requires 0.0 < c.bucket.rate && Requested(c, call).1.LocallyLimited?
    ensures var (d, result) := Requested(c, call);
            && 0.0 < result.retryAfter
            && (RateLimiting.AllWindowsPermit(c.bucket.capacity, c.bucket.rate, d.bucketLog, retry, 1)
                <==> call.takenAt + result.retryAfter <= retry)
  {
    hide RateLimiting.AllWindowsPermit, Requested, Core.Valid;
    RetryAfterIsExact(c, call, [], retry);
  }

  // ---- the class ----

  class BaseConnector {
    const bucket: RateLimiting.TokenBucket
    const breaker: CircuitBreaking.CircuitBreaker
    var breakerOpenTotal: nat
    var requestCount: multiset<Label>
    ghost var calls: nat
    ghost var bucketRejections: nat
    ghost var upstream: nat

    ghost function Model(): Core
      reads this, bucket, breaker
    {
      Core(breaker.Model(), bucket.Model(),
           Stats(calls, breakerOpenTotal, bucketRejections, upstream, requestCount),
           breaker.log, bucket.log)
    }

    ghost predicate Valid()
      reads this, bucket, breaker
    {
      bucket.Valid() && breaker.Valid()
    }

    /** A bucket as large as its rate per minute, and a breaker with the default settings. */
    constructor (rateLimitPerMin: int, now: real)
      ensures 0 < rateLimitPerMin ==> Valid()
      ensures fresh(bucket) && fresh(breaker)
      ensures Model() == Fresh(5, 30.0, rateLimitPerMin as real, rateLimitPerMin as real / 60.0, now)
      ensures breaker.Model() == CircuitBreaking.Breaker(5, 30.0, 0, None) && breaker.log == []
      ensures bucket.capacity == bucket.tokens == rateLimitPerMin as real
      ensures bucket.ratePerSec == rateLimitPerMin as real / 60.0 && bucket.last == now
      ensures breakerOpenTotal == 0 && requestCount == multiset{} && calls == bucketRejections == upstream == 0
    {
      bucket := new RateLimiting.TokenBucket(rateLimitPerMin, None, now);
      breaker := new CircuitBreaking.CircuitBreaker(5, 30.0);
      breakerOpenTotal, requestCount := 0, multiset{};
      calls, bucketRejections, upstream := 0, 0, 0;
    }

    /** `_get`: `call` supplies the clock readings and the upstream's answer. */
    method Get(call: Call) returns (result: Result)
      requires Valid() && bucket.last <= call.takenAt
      modifies this, bucket, breaker
      ensures Valid() && 0.0 < old(Model()).bucket.rate
      ensures (Model(), result) == Requested(old(Model()), call)
    {
      hide RateLimiting.Explains, RateLimiting.RateLimited, CircuitBreaking.Agrees,
           CircuitBreaking.LogAllows, RateLimiting.AllWindowsPermit, RateLimiting.Available,
           RateLimiting.Taken, RateLimiting.Logged, CircuitBreaking.Allows,
           CircuitBreaking.AfterFailure, CircuitBreaking.AfterSuccess, Answered;
      RateLimiting.ExplainsValid(bucket.Model(), bucket.log);
      RateLimiting.TakeIsValid(bucket.Model(), call.takenAt, 1);
      calls := calls + 1;
      var allowed := breaker.Allow(call.askedAt);
      if !allowed {
        breakerOpenTotal := breakerOpenTotal + 1;
        return CircuitOpen;
      }
      var wait := bucket.Take(call.takenAt, 1);
      if wait > 0.0 {
        bucketRejections := bucketRejections + 1;
        return LocallyLimited(wait);
      }
      upstream := upstream + 1;
      result := Send(call);
    }

    /** From the moment the token is granted: the request goes out, is counted, and moves the breaker. */
    method Send(call: Call) returns (result: Result)
      requires Valid()
      modifies this, breaker
      ensures Valid() && bucket.Model() == old(bucket.Model()) && bucket.log == old(bucket.log)
      ensures (Model(), result) == Answered(old(Model()), call)
    {
      hide RateLimiting.Explains, RateLimiting.RateLimited, CircuitBreaking.Agrees,
           CircuitBreaking.AfterFailure, CircuitBreaking.AfterSuccess;
      if call.outcome.TransportError? {
        breaker.RecordFailure(call.answeredAt);
        requestCount := requestCount + multiset{ErrorLabel};
        return TransportFailure;
      }
      var status := call.outcome.status;
      requestCount := requestCount + multiset{StatusLabel(status)};
      if status == 429 {
        breaker.RecordFailure(call.answeredAt);
        return UpstreamLimited;
      }
      if status >= 500 {
        breaker.RecordFailure(call.answeredAt);
        return UpstreamFailure(status);
      }
      if status >= 400 {
        return ClientError(status);
      }
      breaker.RecordSuccess();
      return Payload(status);
    }
  }
}
