# MarketIntel, verified

A Dafny 4.11 model of the stateful cores of MarketIntel, a Django/Celery market-data platform, with
proofs of what they keep. Nothing is executed: the model states what the Python does, and the
verifier checks what follows from it. `dafny verify dfyconfig.toml` checks the whole project. Every
lemma carries `{:induction false}`: each induction is written out in the lemma's body.

What is modelled, and where:

- **Connector guard.** `RateLimiting` (token bucket), `CircuitBreaking` (breaker), `Connector` (`_get`,
  one caller), `ConnectorThreads` (`_get` under any interleaving of any number of threads),
  `SequentialCalls` (balances and outages of one caller), `HalfOpen` (how many probes go out after the
  cooldown), `ThreadOutage` (what an outage costs M threads), `YahooSpot` (the per-minute batch).
  The two guards are classes with the source's fields; each is proved against a specification over the
  whole log of what happened to it. Times and tokens are real numbers; the clock, and what the upstream
  answers, are inputs.
- **Instrument history.** `InstrumentHistory` (one upsert at a time, over a table of rows in creation
  order), `AsOfQueries` (when as-of queries are faithful), `InstrumentTransactions` (any number of workers, statement by statement, with commits and
  aborts), `CatalogSync` (the catalogue refresh).
- **Partitions.** `Calendar` (proleptic Gregorian calendar and the `+32 days` month step), `Partitions`
  (migration and maintenance job), `PartitionCoverage` (the schedule of the 25th), `PartitionSensor`,
  `CandleRouting` (which parsed candles have a partition).
- **Silver writes.** `Candles` (batched upsert), `YahooChart` (ragged arrays to candles to rows),
  `CandleIngest` (the candle task: fetch, look up, refresh the spot price, upsert), `SymbolScanner` (the ticker regular expression), `Articles` (article upsert).

How the database is taken: a table is a map or a sequence held in a class field; a transaction's writes
take effect together at commit or not at all; a row lock is held until the transaction ends; a read after
the lock sees what is committed then; one INSERT ... ON CONFLICT may not touch a key twice, nor insert a
row that no partition takes; a partition may not overlap another.

Where comments or docstrings say more than the code does, the model follows the code:

- `allow()` says that half-open allows one probe (`pipelines/connectors/base.py:86-88`). It admits every
  caller once the cooldown has passed: over every run, as many probes go out before the next recorded
  outcome as threads ask (`HalfOpen.ProbesAreAsks`), and no number bounds them, not even with a
  single thread, which asks again after a 404 or a refusal by the bucket (`HalfOpen.NoBoundOnProbes`). Among
  the runs in which no probe is turned back like this, one at most is guaranteed exactly for a connector with
  no more than one thread (`HalfOpen.OneProbeIffOneThread`).
- `_add_month` is the next month only while the day leaves room for it (`pipelines/tasks/maintenance.py:20-21`);
  `Calendar.AddMonthExactIff` says exactly when. Both loops call it on the first of a month only.
- The maintenance task is described as early enough that no insert lacks a partition
  (`pipelines/tasks/maintenance.py:3-5`). That depends on how many runs are missed;
  `PartitionCoverage.CoverageIff` and `Tolerance` give the exact condition. `ensure_future_partitions`
  returns its number of loop passes, not the number of partitions created.
- `upsert_instrument_scd2` does not require observation times to move forward.
  `InstrumentHistory.AsOfUniqueIffTimely` says exactly when as-of queries stay unambiguous,
  `AsOfQueries.FaithfulIffInTime` exactly when they also name the attributes last observed after every
  upsert, `AsOfQueries.FaithfulIffFound` exactly when they do so in one table by itself, and
  `BackdatedChangeOverlaps` and `BackdatedRepeatMisleads` are inputs on which they do not.
- The sensor speaks of exactly-once and no double firing (`pipelines/orchestration/sensors.py:6`, `:37`).
  How often a month is requested depends on the order of the days it sees; `PartitionSensor.NoDoubleFireIff`
  gives the exact condition for a second request. A repeated request carries the same run key, and the keys
  requested are those of exactly the months evaluated in their window (`RunKeysAreTheMonths`); what the scheduler
  does with a key it has seen is not part of this model.
- `upsert_candles` is idempotent on its natural key (`apps/prices/services.py:40`), but records that repeat
  a key within one batch are refused as a whole; `Candles.ChunksDistinctIff` says exactly when.
- A default chart reaches back up to six months (`pipelines/connectors/yahoo_finance.py:52-59`), but no partition
  is ever made for the months before the migration. One bar from before it loses the whole chart;
  `CandleRouting.ChartAcceptedIff` says exactly when.
- `upsert_articles` leaves an article's old tags in place when a record yields no symbol
  (`Articles.LinksSurviveUntaggedRecord`).

## Model

| member | source | states |
|---|---|---|
| RateLimiting.TakeDecidesAllWindows | pipelines/connectors/base.py:58-68 | After any run with a clock that never goes back, `take(n)` returns 0 exactly when n fits the capacity and every window since creation or an earlier take has room for it: two numbers of state never over-grant a window and never refuse what all windows permit. |
| RateLimiting.GrantsIffAllWindows | pipelines/connectors/base.py:62-66 | The single comparison of the code is equivalent to the conjunction over all windows of the log. |
| RateLimiting.ExplainsStep | pipelines/connectors/base.py:62-68 | Every take keeps the invariant that the tokens are the room in the tightest window. |
| RateLimiting.RunIsRateLimited | pipelines/connectors/base.py:58-68 | In every span of time of every run, at most capacity + rate * length tokens are granted. |
| RateLimiting.WaitIsExact | pipelines/connectors/base.py:67-68 | A returned wait w at time t is exact: a retry is granted at a later time if and only if that time is at least t + w, whatever refused takes of any size come in between. |
| RateLimiting.RefusedTakeIsInvisible | pipelines/connectors/base.py:58-68 | Inserting or deleting a refused take anywhere in a run changes no other take's outcome. |
| RateLimiting.TokenBucket.constructor | pipelines/connectors/base.py:51-56 | A capacity that is absent or 0 means the rate per minute; the bucket starts full; with a positive rate it is valid. |
| RateLimiting.TokenBucket.Take | pipelines/connectors/base.py:58-68 | Grants exactly when all windows of the log permit, updates both fields as the specification says, and keeps the log's rate limit. |
| CircuitBreaking.ReplayAgrees | pipelines/connectors/base.py:72-100 | Over any sequence of events of any threads, the failure count is the number of failures since the last success, and the opening time is set exactly when that number is at least 1 and at least the threshold, and is then the time of the latest failure. |
| CircuitBreaking.AllowsIffLogAllows | pipelines/connectors/base.py:82-89 | Admission from two fields is the same as admission from the whole log. |
| CircuitBreaking.CircuitBreaker.Allow | pipelines/connectors/base.py:82-89 | Admits exactly when the log is not tripped or the latest failure is a cooldown old; changes no field. |
| CircuitBreaking.CircuitBreaker.RecordSuccess | pipelines/connectors/base.py:91-94 | Clears both fields and keeps agreement with the log. |
| CircuitBreaking.CircuitBreaker.RecordFailure | pipelines/connectors/base.py:96-100 | Counts the failure, (re)opens at the threshold, and keeps agreement with the log. |
| Connector.ResultFollowsHistory | pipelines/connectors/base.py:138-188 | Which of the seven outcomes `_get` has is decided, both ways, by the breaker's log, the bucket's log and the upstream's answer. |
| Connector.CallAccounts | pipelines/connectors/base.py:138-188 | A breaker rejection spends no token; a bucket rejection leaves the breaker alone; a sent request is counted once under its own label and moves the breaker by its outcome (429 and 5xx and transport errors fail, other 4xx do neither). |
| Connector.RetryAfterIsExact | pipelines/connectors/base.py:149-154 | A local refusal by `_get` carries a positive time to wait, and it is exact: however much is polled and refused in between, the windows of the bucket's log permit the call at a later time if and only if that time has passed. |
| Connector.BaseConnector.constructor | pipelines/connectors/base.py:116-131 | A fresh connector: bucket as large as the rate, breaker with threshold 5 and cooldown 30; with a positive rate it is valid. |
| Connector.BaseConnector.Send | pipelines/connectors/base.py:156-188 | The part of `_get` from the request on: counts it under its label, moves the breaker by its outcome, leaves the bucket alone. |
| Connector.BaseConnector.Get | pipelines/connectors/base.py:138-188 | The imperative `_get` over the two guard objects does exactly what the specification of one call says, including counters. |
| ConnectorThreads.AnyInterleaving | pipelines/connectors/base.py:72-188 | Under any interleaving of any number of threads: breaker fields agree with the breaker's log, tokens with the bucket's log, the rate limit holds over every span, and calls, tokens and requests balance at every step. |
| ConnectorThreads.QuiescentBalance | pipelines/connectors/base.py:145-188 | With no thread inside `_get`: calls = breaker rejections + bucket rejections + upstream requests, and upstream requests = tokens granted = sum of the request counter over its labels. |
| ConnectorThreads.FailuresAfterTrip | pipelines/connectors/base.py:91-100 | With M threads, from a trip until the next admission or recorded success at most M - 1 further failures are recorded. |
| ConnectorThreads.AdmissionAfterTrip | pipelines/connectors/base.py:82-100 | That next admission comes no sooner than a cooldown after the last recorded failure. |
| HalfOpen.ProbesAreAsks | pipelines/connectors/base.py:82-89 | Over every run from a moment at which the breaker admits: until the next outcome is recorded, exactly as many probes are admitted as threads ask, so at most one if and only if at most one asks. |
| HalfOpen.AdmissionsBalance | pipelines/connectors/base.py:145-188 | Over any run, every admitted call has recorded one outcome, was turned back without one (bucket, or a harmless 4xx), or is still under way. |
| HalfOpen.ProbesAtMostThreads | pipelines/connectors/base.py:86-88 | Until the next recorded outcome, if no probe is turned back, no more go out than there are threads not yet under way. |
| HalfOpen.NoBoundOnProbes | pipelines/connectors/base.py:86-88 | From idle threads and an admitting breaker, whatever the bucket: a bound on the probes before the next recorded outcome holds over every run if and only if there is no thread at all. |
| HalfOpen.ManyProbes | pipelines/connectors/base.py:145-188 | One idle thread is admitted any given number of times without an outcome being recorded, by 404 answers or bucket refusals. |
| HalfOpen.OneProbeIffOneThread | pipelines/connectors/base.py:86-88 | Restricted to runs in which no probe is turned back (by the bucket or a harmless 4xx): at most one probe goes out in every such run if and only if there is at most one thread. |
| HalfOpen.HalfOpenAdmitsAll | pipelines/connectors/base.py:86-88 | The extreme case: all idle threads ask in turn, and all are admitted. |
| ThreadOutage.OutageBound | pipelines/connectors/base.py:82-100 | M threads, an upstream that only fails: in a time span after the breaker opened at most M * floor(span / cooldown) requests go out, and one for each thread admitted before. |
| ThreadOutage.OutageBoundAfterTrip | pipelines/connectors/base.py:82-100 | After a trip that is at most M * floor(span / cooldown) + M - 1; for M = 1 the sequential bound. |
| ThreadOutage.BoundIsAttained | pipelines/connectors/base.py:82-100 | The bound is tight: from idle threads, a breaker one failure from opening and tokens enough, for every number of cooldowns there is a run that sends exactly M * floor(span / cooldown) + M - 1 requests after the trip. |
| ThreadOutage.SpacedRun | pipelines/connectors/base.py:138-188 | The requests of one thread after the trip are a cooldown apart, whatever the other threads do. |
| ConnectorThreads.UndisturbedCall | pipelines/connectors/base.py:138-188 | Whatever the other threads are in the middle of: the six steps of any thread's call, run without interference, are the sequential `_get`, and leave the other threads where they are. |
| ConnectorThreads.BusyThreadEnds | pipelines/connectors/base.py:145-188 | From every state a busy thread, wherever it stands and whatever the upstream answers, can end its call. |
| ConnectorThreads.SequentialIsOneThread | pipelines/connectors/base.py:138-188 | The interleaved model with a single thread is the sequential `_get`. |
| SequentialCalls.CallsBalance | pipelines/connectors/base.py:138-188 | For any run of one caller from a fresh connector: the exact balance of calls, rejections, requests, tokens and counted requests, and the rate limit whatever the outcomes. |
| SequentialCalls.OutageSpacing | pipelines/connectors/base.py:82-100 | With the breaker open and an upstream that only fails, k further requests take at least k cooldowns. |
| SequentialCalls.OutageBound | pipelines/connectors/base.py:82-100 | In a time span after the trip at most floor(span / cooldown) further upstream requests happen. |
| SequentialCalls.FailingBatch | pipelines/connectors/base.py:96-100 | N failing calls on a fresh connector, made within a cooldown of the trip, make exactly min(N, threshold) upstream requests; the breaker turns away the rest. |
| YahooSpot.SpotTable.IngestSpotForActive | pipelines/tasks/yahoo.py:14-36 | The batch loop over one fresh connector: spot table and return value are those of the per-instrument specification; a missing source raises and changes nothing. |
| YahooSpot.BatchMakesEveryCall | pipelines/tasks/yahoo.py:20-24 | No failure stops the batch: after n instruments n more calls have been made, and the connector is as after those n calls in turn. |
| YahooSpot.BatchStores | pipelines/tasks/yahoo.py:20-36 | Exactly the instruments whose request was answered with a payload that parsed to a quote of non-zero price hold that quote, every other row is untouched, and the return value is the number of the former. |
| YahooSpot.OutageBatch | pipelines/tasks/yahoo.py:14-36 | During an outage the batch visits all N instruments, makes exactly min(N, 5) upstream requests, and leaves the spot table alone. |
| InstrumentHistory.InstrumentTable.Upsert | apps/instruments/services.py:29-111 | Unknown source: error and no change. Otherwise the whole new table, and the returned row is the current one and carries the observation. |
| InstrumentHistory.UpsertKeepsWellFormed | apps/instruments/services.py:61-111 | In creation order, exactly the last row of each key is current, and it alone has no end; every upsert keeps this. |
| InstrumentHistory.WellFormedHasOneCurrent | apps/instruments/models.py:53-62 | Hence exactly one current row for every key that has any row. |
| InstrumentHistory.ClosedRowsAreFinal | apps/instruments/services.py:81-94 | Over any run of upserts a closed row never changes, and key, attributes and start of every row are final. |
| InstrumentHistory.HistoryByKey | apps/instruments/services.py:46-111 | The rows of a key depend on that key's observations only. |
| InstrumentHistory.RunLengthHistory | apps/instruments/services.py:44-111 | With no assumption on times: the rows of a key are the maximal runs of equal attributes of its observations, each ending where the next begins, only the last current, each with the metadata last observed in its run. |
| InstrumentHistory.RunsAreMaximal | apps/instruments/services.py:76-94 | The runs used above are the maximal ones: they join to the observations, none is empty, each is uniform, neighbours differ. |
| InstrumentHistory.AsOfFidelity | apps/instruments/services.py:61-111 | If a key's observation times never go back, then at every time from the first on exactly one row is valid, with the attributes last observed. |
| InstrumentHistory.AsOfUniqueIffTimely | apps/instruments/services.py:88-101 | With no assumption on times: exactly one row is valid at every time if and only if every change was no earlier than the row it closed (or that row started no later than the first). |
| InstrumentHistory.BackdatedChangeOverlaps | apps/instruments/services.py:88-101 | An input on which two rows answer one as-of query. |
| AsOfQueries.FaithfulIffInTime | apps/instruments/services.py:61-111 | With no assumption on times: after every upsert exactly one row of the key is valid at every time from its first observation on, with the attributes last observed, if and only if every upsert was in time (a change no earlier than the row it closes; a repeat nowhere that other attributes already answer). |
| AsOfQueries.UpsertIsFaithfulIff | apps/instruments/services.py:76-101 | One upsert keeps as-of queries faithful if and only if it is in time. |
| AsOfQueries.FaithfulIffFound | apps/instruments/services.py:61-111 | For one table by itself, whatever came before: as-of queries are faithful at every time if and only if they are at the times of the observations. |
| AsOfQueries.BackdatedRepeatMisleads | apps/instruments/services.py:76-80 | A late repeat of the current attributes leaves one answer at each time, but not the one last observed. |
| InstrumentTransactions.Serialisable | apps/instruments/services.py:46-111 | Any number of workers, any interleaving of lock, read, close, insert, commit and abort: the committed table is the sequential fold of the committed upserts in commit order, and each source's rows are the fold of its committed upserts in the order they took the source's lock. |
| InstrumentTransactions.IdleWorkerCanUpsert | apps/instruments/services.py:46-111 | From every reachable state, whatever the others hold: an idle worker's five statements for a version whose source exists and is not locked carry the upsert out: the table is the upserted one, the lock is free again, and its ticket is committed and last in commit order. |
| InstrumentTransactions.BusyWorkerCanEnd | apps/instruments/services.py:46-111 | From every reachable state a busy worker, wherever it stands, can commit the upsert it has begun with its remaining statements, and can abort it, which leaves the table as it was. |
| InstrumentTransactions.BeginsIff | apps/instruments/services.py:47 | A transaction begins if and only if its worker is idle, the source exists, and nobody holds its lock. |
| InstrumentTransactions.AlwaysOneCurrent | apps/instruments/services.py:46-111 | Every committed state has exactly one current row for each key that has a row. |
| InstrumentTransactions.CommitNeverConflicts | apps/instruments/models.py:53-62 | What a worker has decided to write never meets the unique index, however late it commits. |
| InstrumentTransactions.StepKeepsInv | apps/instruments/services.py:46-111 | Every step keeps the invariant: one holder per source lock, what a worker has read is still what is committed, and commit order agrees with each source's lock order. |
| InstrumentTransactions.DecisionIsUpsert | apps/instruments/services.py:61-111 | The statements of one transaction, applied together, are the sequential upsert. |
| CatalogSync.SyncCatalog | pipelines/tasks/ingest.py:30-50 | The loop is the fold of one upsert per coin; a missing source stops it before any change. |
| CatalogSync.CatalogIsCurrent | pipelines/tasks/ingest.py:36-48 | After the job, the current row of every id shows its last coin: symbol, name, crypto, USD and market rank; rows it added start, and rows it closed end, at the time of the job. |
| CatalogSync.ReplayIsIdentity | pipelines/tasks/ingest.py:35-50 | A catalogue of distinct ids, read again in any order, in part or with repetitions, leaves the table exactly as it is. |
| CatalogSync.ReplayAddsNoRowsIff | pipelines/tasks/ingest.py:35-50 | For any catalogue, reading it again adds no rows if and only if coins with one id agree on symbol and name. |
| Calendar.OrdinalOfDate | pipelines/tasks/maintenance.py:20-21 | Every day number is the number of its date. |
| Calendar.DateOfOrdinal | pipelines/tasks/maintenance.py:20-21 | Every date is the date of its day number. |
| Calendar.OrdinalClosedForm | pipelines/tasks/maintenance.py:20-21 | Counting days one at a time agrees with the Gregorian leap-year formula, century rules included. |
| Calendar.MonthArithmeticExact | pipelines/tasks/maintenance.py:16-21 | j steps of `_add_month` from `_month_floor(d)` give the first day of the month j later, for every d. |
| Calendar.AddMonthExactIff | pipelines/tasks/maintenance.py:20-21 | For an arbitrary day `_add_month` gives the next month if and only if day + 32 fits into this and the next month; otherwise it skips one. |
| Calendar.AddMonthSkipsFebruary | pipelines/tasks/maintenance.py:20-21 | From 30 or 31 January it skips February. |
| Calendar.YearMonthReads | pipelines/tasks/maintenance.py:37 | The text of a year and month, in partition names and run keys: the numeral of the year in at least four digits, the separator, the month in two. |
| Calendar.NextMonthIsAddMonth | pipelines/orchestration/sensors.py:55-57 | The sensor's `_next_month(d)` is `_add_month(_month_floor(d))`. |
| Partitions.CandleTable.EnsureFuturePartitions | pipelines/tasks/maintenance.py:28-52 | The loop creates exactly the missing months from this one to `months_ahead` later, never issues an overlapping CREATE, and returns the number of loop passes. |
| Partitions.CandleTable.ConvertToPartitioned | apps/prices/migrations/0002_partition_candles.py:23-84 | Whatever was there, the migration leaves exactly the current month and the three after it. |
| Partitions.FreeNameMeansFreeRange | pipelines/tasks/maintenance.py:38-50 | A month whose partition name is free overlaps no partition, so checking the name alone is enough. |
| Partitions.NameDeterminesMonth | pipelines/tasks/maintenance.py:37 | Different months have different partition names. |
| Partitions.NameReads | pipelines/tasks/maintenance.py:37 | A partition's name reads `fact_price_candle_`, the year, `_`, the month: year and month of the month it holds. |
| Partitions.MaintainedMonths | pipelines/tasks/maintenance.py:28-52 | After the migration and any runs on any dates, partitions are whole months under their own names, and a month is there exactly when the migration or some run named it. |
| Partitions.PairwiseDisjoint | pipelines/tasks/maintenance.py:35-37 | Partitions under different names do not overlap. |
| Partitions.RoutesToAtMostOne | pipelines/tasks/maintenance.py:35-37 | Each timestamp routes to at most one partition. |
| Partitions.TimestampOfMidnight | pipelines/connectors/yahoo_finance.py:173 | Unix seconds and calendar days agree: `fromtimestamp` counts seconds from midnight of 1 January 1970. |
| Partitions.RunIdempotent | pipelines/tasks/maintenance.py:29 | Repeating a run is the identity. |
| PartitionCoverage.MonthsOn | config/celery.py:43-47 | On any day after deployment, the months with a partition are the migration's four and those some successful run of the 25th has reached by then. |
| PartitionCoverage.CoverageIff | config/celery.py:43-47 | On every day every timestamp from the first covered month to the end of that day has exactly one partition, if and only if every month past the migration's reach is preceded by a successful run among the `months_ahead` months before it. |
| PartitionCoverage.Tolerance | config/celery.py:43-47 | With a reach of k from 1 to 3 months (3 as deployed), coverage holds for ever exactly when no k consecutive runs from the migration's reach on are missed: k - 1 misses are tolerated, k are not. |
| PartitionCoverage.LongerReachStartsNoLater | apps/prices/migrations/0002_partition_candles.py:67-80 | A reach beyond 3 does not tolerate more misses at the start: after a late deployment, three missed runs leave a day uncovered. |
| CandleRouting.RouteIffPlanned | pipelines/tasks/maintenance.py:28-52 | On any day of any deployment a timestamp has a partition exactly when its month is one of the migration's four or reached by a run so far. |
| CandleRouting.NoRouteBeforeFirstMonth | apps/prices/migrations/0002_partition_candles.py:67-80 | A timestamp before the month of the migration has no partition on any day. |
| CandleRouting.ParsedCandlesHaveAPartitionIff | pipelines/tasks/yahoo.py:71-85 | With the deployed reach of 3 months and no three consecutive missed runs, every candle of a chart has exactly one partition if and only if its complete bars reach back no further than the month of the migration. |
| CandleRouting.ChartAcceptedIff | pipelines/tasks/yahoo.py:71-85 | For increasing timestamps the whole upsert goes through under the same condition, and otherwise loses every candle. |
| CandleRouting.ParsedCandleWithoutPartition | pipelines/tasks/yahoo.py:71-85 | Three consecutive missed runs leave a day on which a complete bar of that day has none. |
| PartitionSensor.Sensor.Evaluate | pipelines/orchestration/sensors.py:34-52 | One evaluation: a run is requested exactly on the last five days of a month not acted on last, under `partitions-YYYY-MM`, and then the cursor is that month. |
| PartitionSensor.DaysLeftIffWindow | pipelines/orchestration/sensors.py:40-42 | At most five days are left exactly on the last five days of a month. |
| PartitionSensor.NoDoubleFireIff | pipelines/orchestration/sensors.py:34-57 | For days in any order, from an empty cursor: a month is never requested exactly when no evaluation falls on one of its last five days, and at most once exactly when the days do not leave that window for another month's and come back. |
| PartitionSensor.RequestsFrom | pipelines/orchestration/sensors.py:44-48 | The same from a cursor set for any month: the month acted on last is requested again exactly when another month's window intervenes. |
| PartitionSensor.RunKeysAreTheMonths | pipelines/orchestration/sensors.py:44-52 | For days in any order, from an empty cursor: the distinct run keys requested are those of exactly the months evaluated in their window. |
| PartitionSensor.FiresExactlyOnce | pipelines/orchestration/sensors.py:34-57 | From an empty cursor and over days that never go back, a month is requested exactly once if some evaluation falls on one of its last five days, and never otherwise. |
| PartitionSensor.ClockSetBackFiresTwice | pipelines/orchestration/sensors.py:44-48 | If the date does go back across a month boundary, a month is requested twice. |
| Candles.CandleStore.UpsertCandles | apps/prices/services.py:39-77 | The chunked upsert is one last-writer-wins fold if no chunk repeats a key and no record lacks a partition, and otherwise fails leaving the table as it was. |
| Candles.ChunkingIsInvisible | apps/prices/services.py:65-72 | For every chunk size: accepted exactly when no chunk repeats a key and no record lacks a partition, and then equal to the fold. |
| Candles.ChunksDistinctIff | apps/prices/services.py:66-71 | No chunk repeats a key exactly when no key occurs twice at positions with the same quotient by the batch size. |
| Candles.AcceptedIff | apps/prices/services.py:23 | As it runs, with a thousand to a batch: the upsert is accepted exactly when every record has a partition and no key occurs twice in the same thousand. |
| Candles.ChunkSizeDoesNotMatter | apps/prices/services.py:23 | For distinct keys every chunk size gives the same table, or the same refusal for want of a partition. |
| Candles.OrderDoesNotMatter | apps/prices/services.py:65-72 | For distinct keys every order of the records gives the same table. |
| Candles.FoldedHolds | apps/prices/services.py:66-72 | At every key: the values and run id of its last record, the insertion time of the row if there was one, and no change without a record. |
| Candles.OtherColumnsUntouched | apps/prices/services.py:70 | Columns outside the update list keep their value in every existing row. |
| Candles.ReplayOnlyRelabels | apps/prices/services.py:40-44 | Ingesting the same records in another run changes only the run id of their rows. |
| Candles.ReplayIsIdentity | apps/prices/services.py:40-44 | Within one run a replay changes nothing. |
| YahooChart.ParseCandles | pipelines/connectors/yahoo_finance.py:149-180 | The index loop over ragged arrays emits the candles of the complete positions, in order. |
| YahooChart.ParsedColumns | pipelines/connectors/yahoo_finance.py:149-180 | The candles column by column: one for each position with open, high, low and close present, in order; each column is the number of its own array at that position, 0 if that is no number; the volume is 0 if null or missing too. |
| YahooChart.PositionsAreTheComplete | pipelines/connectors/yahoo_finance.py:160-170 | The emitted positions are exactly those whose open, high, low and close are all present, each once, in timestamp order. |
| YahooChart.ParsedMembers | pipelines/connectors/yahoo_finance.py:160-179 | A candle is emitted if and only if it is the candle of a complete position. |
| YahooChart.IncreasingGivesDistinctKeys | pipelines/tasks/yahoo.py:71-84 | Strictly increasing timestamps give distinct natural keys, so no chunk repeats one. |
| YahooChart.SecondWindowWins | pipelines/tasks/yahoo.py:71-85 | Ingesting one window and then another leaves the second's values on the second, the first's values on what only the first has, and every other row as it was. |
| CandleIngest.IngestYahooCandles | pipelines/tasks/yahoo.py:40-85 | The whole task: which cases raise (unknown resolution, unavailable chart, missing source, repeated key, missing partition), which return 0 (no candles, no instrument), and the full effect on both tables in every case; a refused upsert keeps the spot price already written. |
| CandleIngest.FirstMatch | pipelines/tasks/yahoo.py:54-59 | The instrument found: a current row of the source whose identifier is the symbol but for case, first in symbol order; none exactly when there is none. |
| CandleIngest.FoundIsCurrent | pipelines/tasks/yahoo.py:54-59 | If the symbol is the identifier of one instrument only, that is the current version the history keeps for it. |
| SymbolScanner.ScanIsTokenise | apps/news/services.py:34-39 | For every text, leftmost non-overlapping matching of the expression yields, in order, exactly the words that are two to ten capitals. |
| SymbolScanner.ScanFindsTheTickerWords | apps/news/services.py:34-39 | A span is matched if and only if it is a maximal word run of two to ten capitals: no match is part of a longer word, none is missed. |
| SymbolScanner.ExtractedAreTheTickers | apps/news/services.py:37-39 | The extracted set is the set of those words. |
| Articles.ArticleStore.UpsertArticles | apps/news/services.py:42-83 | Record by record; an unknown source stops the run after the records before it. The memo of sources agrees with direct lookup. |
| Articles.BatchResult | apps/news/services.py:55-67 | After any batch, repeated keys included, column by column: title, url, summary, publication time, score and metadata are those of the last record about the article, its sentiment too unless it is none of the three values, which reads as neutral; an article without a record is untouched. |
| Articles.BatchLinks | apps/news/services.py:69-74 | Its links are exactly the current instruments whose symbol the last record that mentions any symbol mentions, by name or as a word of two to ten capitals in title or summary; without such a record the prior links. |
| Articles.LastTaggingIsLast | apps/news/services.py:69-74 | The record that decides the links is the last one of its key that yields a symbol. |
| Articles.ReplayIsIdentity | apps/news/services.py:42-83 | Applying the same batch again, with the instruments unchanged, changes nothing. |
| Articles.LinksSurviveUntaggedRecord | apps/news/services.py:70-74 | A record without symbols leaves the article's old links in place. |

## Left out

- RateLimiting.TokenBucket.Take: requires a valid bucket, so a positive rate (with a rate of 0 the source divides by zero on a refusal); rounding of binary floating point is not modelled, and `n` is a natural number.
- Connector.BaseConnector.Get: exceptions other than `httpx.HTTPError` from the client, an unreadable `Retry-After` header and a body that is not JSON are not modelled; the retry time of an upstream 429 is not carried.
- YahooSpot.SpotTable.IngestSpotForActive: takes a positive rate, and the list of active instruments is an input.
- CatalogSync.SyncCatalog: the coin list is an input; fetching it is `_get` again.
- Candles.CandleStore.UpsertCandles: foreign-key errors are not part of the upsert's outcome; the surrogate `id` column is left out.
- YahooChart.ParseCandles: the upper-cased symbol carried by a candle is left out, since no row uses it; `fromtimestamp` errors and NaN are not modelled.
- CandleIngest.IngestYahooCandles: the quote arrives already parsed; the fallbacks among the metadata fields are not part of this model, and an error of the request or in the payload is one case.
- CandleIngest.FirstMatch: the database's case folding and collation are parameters, and among rows that tie by symbol, where the database may pick any, the first created is taken.
- SymbolScanner.ScanIsTokenise: what counts as a word character is a parameter that need only contain A-Z; Unicode is not modelled.
- Articles.ArticleStore.UpsertArticles: the full-text column and the automatic timestamps are left out.
- Partitions.CandleTable.EnsureFuturePartitions: relations of the same name that are not partitions, and the year-9999 limit of `date`, are not modelled; years are written with at least four digits.
- PartitionCoverage.CoverageIff: a run either takes place at midnight of the 25th or is missed; a run retried later the same month is not modelled, and coverage is judged from the end of the migration.
- InstrumentTransactions.Serialisable: deadlocks, lock waits that time out and the database's own failure modes appear only as aborts.
- The other connectors (Binance, CoinGecko, CryptoPanic) and their ingestion tasks: straight field mapping.
- `update_spot` beyond its upsert, the dead-letter table, API keys, throttling, pagination, serializers, health, middleware, settings: thin wrappers over a framework.
- Celery's retry and backoff, Dagster, DuckDB, the SQL views, the dashboard, object storage: external engines, I/O and user interface.
