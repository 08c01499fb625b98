/** The batch that refreshes the spot price of every Yahoo-tracked instrument over one fresh
    connector, skipping the instruments whose request fails. */
module YahooSpot {
  import opened Options
  import CircuitBreaking
  import RateLimiting
  import opened Connector
  import ConnectorThreads
  import opened SequentialCalls

  const SOURCE: string := "yahoo_finance"

  datatype Quote = Quote(price: real, ts: int, changePct: Option<real>, volume: real)

  /** What parsing makes of a payload. */
  datatype Parsed =
    | ParseFailed
    | NoResult
    | Quoted(quote: Quote)

  /** Everything that varies in the visit of one instrument. */
  datatype Visit = Visit(call: Call, parsed: Parsed)

  /** The quote to store, if the visit produced one. */
  function Stored(result: Result, parsed: Parsed): Option<Quote> {
    if result.Payload? && parsed.Quoted? && parsed.quote.price != 0.0 then Some(parsed.quote) else None
  }

  type Spots = map<int, Quote>

  datatype Progress = Progress(core: Core, spots: Spots, updated: nat)

  function Visited(p: Progress, instrument: int, v: Visit): (q: Progress)
    requires 0.0 < p.core.bucket.rate
    ensures q.core.bucket.rate == p.core.bucket.rate
  {
    var (core, result) := Requested(p.core, v.call);
    match Stored(result, v.parsed)
    case None => Progress(core, p.spots, p.updated)
    case Some(quote) => Progress(core, p.spots[instrument := quote], p.updated + 1)
  }

  /** After the first `n` instruments. */
  function Batch(start: Progress, instruments: seq<int>, visits: seq<Visit>, n: nat): (q: Progress)
    requires 0.0 < start.core.bucket.rate && n <= |instruments| == |visits|
    ensures q.core.bucket.rate == start.core.bucket.rate
  {
    if n == 0 then start
    else Visited(Batch(start, instruments, visits, n - 1), instruments[n - 1], visits[n - 1])
  }

  function Calls(visits: seq<Visit>): (calls: seq<Call>)
    ensures |calls| == |visits|
    ensures forall i :: 0 <= i < |visits| ==> calls[i] == visits[i].call
  {
    seq(|visits|, i requires 0 <= i < |visits| => visits[i].call)
  }

  /** The result of the `i`-th visit's request. */
  function ResultOf(start: Core, visits: seq<Visit>, i: nat): Result
    requires 0.0 < start.bucket.rate && i < |visits|
  {
    Requested(After(start, Calls(visits)[..i]), visits[i].call).1
  }

  function StoredBy(start: Core, visits: seq<Visit>, i: nat): Option<Quote>
    requires 0.0 < start.bucket.rate && i < |visits|
  {
    Stored(ResultOf(start, visits, i), visits[i].parsed)
  }

  /** No failure stops the batch: after `n` steps it has made `n` calls. */
  lemma {:induction false} BatchMakesEveryCall(start: Progress, instruments: seq<int>, visits: seq<Visit>, n: nat)
    requires 0.0 < start.core.bucket.rate && n <= |instruments| == |visits|
    ensures Batch(start, instruments, visits, n).core == After(start.core, Calls(visits)[..n])
    ensures Batch(start, instruments, visits, n).core.stats.calls == start.core.stats.calls + n
  {
    hide Requested, Stored;
    if n == 0 {
      assert Calls(visits)[..0] == [];
    } else {
      BatchMakesEveryCall(start, instruments, visits, n - 1);
      EveryCallIsCounted(Batch(start, instruments, visits, n - 1).core, visits[n - 1].call);
      var calls := Calls(visits);
      assert calls[..n] == calls[..n - 1] + [calls[n - 1]];
      AfterSplit(start.core, calls[..n - 1], [calls[n - 1]]);
      var c := After(start.core, calls[..n - 1]);
      assert After(c, [calls[n - 1]]) == After(Requested(c, calls[n - 1]).0, []);
    }
  }

  function StoredCount(start: Core, visits: seq<Visit>, n: nat): nat
    requires 0.0 < start.bucket.rate && n <= |visits|
  {
    if n == 0 then 0 else StoredCount(start, visits, n - 1) + if StoredBy(start, visits, n - 1).Some? then 1 else 0
  }

  predicate Distinct(instruments: seq<int>) {
    forall i, j :: 0 <= i < j < |instruments| ==> instruments[i] != instruments[j]
  }

  /** The spot table afterwards, in terms of the visits that produced something to store. */
  lemma {:induction false} BatchStoresThese(start: Progress, instruments: seq<int>, visits: seq<Visit>, n: nat)
    requires 0.0 < start.core.bucket.rate && n <= |instruments| == |visits| && Distinct(instruments)
    ensures var q := Batch(start, instruments, visits, n);
            && q.updated == start.updated + StoredCount(start.core, visits, n)
            && (forall i :: 0 <= i < n && StoredBy(start.core, visits, i).Some? ==>
                  instruments[i] in q.spots && q.spots[instruments[i]] == StoredBy(start.core, visits, i).value)
            && (forall k ::
                  (forall i :: 0 <= i < n && StoredBy(start.core, visits, i).Some? ==> instruments[i] != k) ==>
                  (k in q.spots <==> k in start.spots) && (k in q.spots ==> q.spots[k] == start.spots[k]))
  {
    hide Requested, Stored, ResultOf, After;
    if n != 0 {
      BatchStoresThese(start, instruments, visits, n - 1);
      BatchMakesEveryCall(start, instruments, visits, n - 1);
      LastVisit(start, instruments, visits, n);
    }
  }

  /** The visit's request was answered with a payload, which parsed to a quote whose price is not 0. */
  predicate GoodVisit(start: Core, visits: seq<Visit>, i: nat)
    requires 0.0 < start.bucket.rate && i < |visits|
  {
    && ResultOf(start, visits, i).Payload?
    && visits[i].parsed.Quoted? && visits[i].parsed.quote.price != 0.0
  }

  function GoodVisits(start: Core, visits: seq<Visit>, n: nat): set<nat>
    requires 0.0 < start.bucket.rate && n <= |visits|
  {
    set i | 0 <= i < n && GoodVisit(start, visits, i)
  }

  lemma {:induction false} StoredAreTheGood(start: Core, visits: seq<Visit>, n: nat)
    requires 0.0 < start.bucket.rate && n <= |visits|
    ensures StoredCount(start, visits, n) == |GoodVisits(start, visits, n)|
    ensures forall i :: 0 <= i < n ==>
              StoredBy(start, visits, i) == if GoodVisit(start, visits, i) then Some(visits[i].parsed.quote) else None
  {
    hide ResultOf;
    if n == 0 {
      assert GoodVisits(start, visits, n) == {};
    } else {
      StoredAreTheGood(start, visits, n - 1);
      var before, after := GoodVisits(start, visits, n - 1), GoodVisits(start, visits, n);
      assert after == before + if GoodVisit(start, visits, n - 1) then {n - 1} else {};
    }
  }

  /** Each instrument whose request was answered, with a payload that parsed to a quote of non-zero
      price, holds that quote; every other row is as it was; the return value counts the former. */
  lemma {:induction false} BatchStores(start: Progress, instruments: seq<int>, visits: seq<Visit>, n: nat)
    requires 0.0 < start.core.bucket.rate && n <= |instruments| == |visits| && Distinct(instruments)
    ensures var q := Batch(start, instruments, visits, n);
            && q.updated == start.updated
               + |set i | 0 <= i < n && ResultOf(start.core, visits, i).Payload?
                          && visits[i].parsed.Quoted? && visits[i].parsed.quote.price != 0.0|
            && (forall i :: 0 <= i < n ==>
                  (ResultOf(start.core, visits, i).Payload?
                   && visits[i].parsed.Quoted? && visits[i].parsed.quote.price != 0.0) ==>
                  instruments[i] in q.spots && q.spots[instruments[i]] == visits[i].parsed.quote)
            && (forall k ::
                  (forall i :: 0 <= i < n && instruments[i] == k ==>
                     !ResultOf(start.core, visits, i).Payload?
                     || !visits[i].parsed.Quoted? || visits[i].parsed.quote.price == 0.0) ==>
                  (k in q.spots <==> k in start.spots) && (k in q.spots ==> q.spots[k] == start.spots[k]))
  {
    hide ResultOf, StoredBy, StoredCount, Batch;
    BatchStoresThese(start, instruments, visits, n);
    StoredAreTheGood(start.core, visits, n);
    assert GoodVisits(start.core, visits, n)
           == set i | 0 <= i < n && ResultOf(start.core, visits, i).Payload?
                      && visits[i].parsed.Quoted? && visits[i].parsed.quote.price != 0.0;
  }

  lemma {:induction false} LastVisit(start: Progress, instruments: seq<int>, visits: seq<Visit>, n: nat)
    requires 0.0 < start.core.bucket.rate && 0 < n <= |instruments| == |visits|
    ensures var p, q := Batch(start, instruments, visits, n - 1), Batch(start, instruments, visits, n);
            match StoredBy(start.core, visits, n - 1)
            case None => q.spots == p.spots && q.updated == p.updated
            case Some(quote) => q.spots == p.spots[instruments[n - 1] := quote] && q.updated == p.updated + 1
  {
    hide Requested, Stored, After;
    BatchMakesEveryCall(start, instruments, visits, n - 1);
  }

  lemma {:induction false} FailedCallStoresNothing(c: Core, v: Visit)
    requires 0.0 < c.bucket.rate && IsFailure(v.call.outcome)
    ensures Stored(Requested(c, v.call).1, v.parsed) == None
  {
    hide RateLimiting.Taken, CircuitBreaking.Allows;
  }

  lemma {:induction false} NothingStored(start: Core, visits: seq<Visit>, n: nat)
    requires 0.0 < start.bucket.rate && n <= |visits| && AllFail(Calls(visits))
    ensures StoredCount(start, visits, n) == 0
    ensures forall i :: 0 <= i < n ==> StoredBy(start, visits, i) == None
  {
    hide Requested, Stored;
    if n != 0 {
      NothingStored(start, visits, n - 1);
      assert IsFailure(Calls(visits)[n - 1].outcome);
      FailedCallStoresNothing(After(start, Calls(visits)[..n - 1]), visits[n - 1]);
    }
  }

  /** During an outage the batch still visits every instrument, but the breaker lets only the
      first five requests through; nothing is stored. */
  lemma {:induction false} OutageBatch(ratePerMin: nat, now: real, spots: Spots, instruments: seq<int>,
                                       visits: seq<Visit>)
    requires 5 <= ratePerMin && |instruments| == |visits| && Distinct(instruments)
    requires Timed(now, Calls(visits)) && AllFail(Calls(visits))
    requires forall i :: 5 <= i < |visits| ==> visits[i].call.askedAt < visits[4].call.answeredAt + 30.0
    ensures var start := Progress(Fresh(5, 30.0, ratePerMin as real, ratePerMin as real / 60.0, now), spots, 0);
            var q := Batch(start, instruments, visits, |instruments|);
            && q.core.stats.calls == |instruments|
            && q.core.stats.upstream == (if |instruments| <= 5 then |instruments| else 5)
            && q.updated == 0
            && q.spots == spots
  {
    hide Requested, Stored, StoredBy, After, Batch, AllFail, Timed;
    var rate := ratePerMin as real / 60.0;
    var start := Progress(Fresh(5, 30.0, ratePerMin as real, rate, now), spots, 0);
    var calls, n := Calls(visits), |instruments|;
    assert calls[..n] == calls;
    BatchMakesEveryCall(start, instruments, visits, n);
    CallsBalance(5, 30.0, ratePerMin as real, rate, now, calls);
    FailingBatch(5, 30.0, ratePerMin as real, rate, now, calls);
    BatchStoresThese(start, instruments, visits, n);
    NothingStored(start.core, visits, n);
    var q := Batch(start, instruments, visits, n);
    assert forall k :: (k in q.spots <==> k in spots) && (k in q.spots ==> q.spots[k] == spots[k]);
  }

  class SpotTable {
    var spots: Spots

    constructor ()
      ensures spots == map[]
    {
      spots := map[];
    }

    method UpdateSpot(instrument: int, quote: Quote)
      modifies this
      ensures spots == old(spots)[instrument := quote]
    {
      spots := spots[instrument := quote];
    }

    /** `ingest_yahoo_spot_for_active`: the number of spot rows written, or nothing if it raised because
        the source is missing from `sources`. `visits` supplies clock readings and upstream answers. */
    method IngestSpotForActive(sources: map<string, int>, ratePerMin: nat, now: real, instruments: seq<int>,
                               visits: seq<Visit>)
        returns (result: Option<nat>)
      requires 0 < ratePerMin && |instruments| == |visits| && Timed(now, Calls(visits))
      modifies this
      ensures "yahoo_finance" !in sources ==> result == None && spots == old(spots)
      ensures var rate := ratePerMin as real / 60.0;
              var start := Progress(Fresh(5, 30.0, ratePerMin as real, rate, now), old(spots), 0);
              var q := Batch(start, instruments, visits, |instruments|);
              "yahoo_finance" in sources ==> spots == q.spots && result == Some(q.updated)
    {
      hide Requested, After, Stored, Timed, RateLimiting.Explains, RateLimiting.RateLimited, CircuitBreaking.Agrees;
      var yahoo := new BaseConnector(ratePerMin, now);
      if SOURCE !in sources {
        return None;
      }
      ghost var start := Progress(yahoo.Model(), spots, 0);
      var updated := 0;
      for i := 0 to |instruments|
        invariant yahoo.Valid() && fresh(yahoo) && fresh(yahoo.bucket) && fresh(yahoo.breaker)
        invariant Progress(yahoo.Model(), spots, updated) == Batch(start, instruments, visits, i)
        invariant yahoo.bucket.last <= if i == 0 then now else visits[i - 1].call.answeredAt
      {
        TimedAt(now, Calls(visits), i);
        var response := yahoo.Get(visits[i].call);
        GetKeepsClock(Batch(start, instruments, visits, i).core, visits[i].call);
        var parsed := visits[i].parsed;
        var quote := FetchQuote(response, parsed);
        if quote.Some? {
          UpdateSpot(instruments[i], quote.value);
          updated := updated + 1;
        }
      }
      return Some(updated);
    }
  }

  /** A failed request, a failed parse, a missing result and a zero price all mean: skip. */
  method FetchQuote(result: Result, parsed: Parsed) returns (quote: Option<Quote>)
    ensures quote == Stored(result, parsed)
  {
    if !result.Payload? || parsed.ParseFailed? {
      return None;
    }
    if parsed.NoResult? || parsed.quote.price == 0.0 {
      return None;
    }
    return Some(parsed.quote);
  }

  lemma {:induction false} TimedAt(start: real, calls: seq<Call>, i: nat)
    requires Timed(start, calls) && i < |calls|
    ensures (if i == 0 then start else calls[i - 1].answeredAt)
            <= calls[i].askedAt <= calls[i].takenAt <= calls[i].answeredAt
    decreases i
  {
    if i != 0 {
      TimedAt(calls[0].answeredAt, calls[1..], i - 1);
    }
  }

  lemma {:induction false} GetKeepsClock(c: Core, call: Call)
    requires 0.0 < c.bucket.rate && c.bucket.last <= call.takenAt <= call.answeredAt
    ensures Requested(c, call).0.bucket.last <= call.answeredAt
  {
    hide RateLimiting.Available, CircuitBreaking.Allows;
  }
}
