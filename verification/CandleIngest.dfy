/** The candle ingestion task: from a fetched chart to the spot table and the partitioned fact
    table, by way of the source and the instrument it finds. */
module CandleIngest {
  import opened Options
  import opened InstrumentHistory
  import Candles
  import Partitions
  import YahooChart
  import YahooSpot

  const RESOLUTIONS: set<string> := {"1m", "5m", "15m", "1h", "4h", "1d"}

  /** What is read from the database: source codes with their primary keys, instrument rows (whose
      primary key is their position), and the partitions of the fact table. */
  datatype Database = Database(sources: map<string, int>, instruments: Rows, partitions: Partitions.Table)

  /** How the database compares text: equal but for case, and the sort position of a symbol. */
  datatype Collation = Collation(same: (string, string) -> bool, rank: string -> int)

  /** What arrives from upstream: an error (of the request or in the payload), no result, or a
      quote and the arrays. */
  datatype Chart =
    | ChartError
    | NoResult
    | Charted(quote: YahooSpot.Quote, timestamps: seq<int>, quotes: seq<YahooChart.Arrays>)

  function CandlesOf(chart: Chart): seq<YahooChart.Candle> {
    if chart.Charted? then YahooChart.Parsed(chart.timestamps, chart.quotes) else []
  }

  // ---- the instrument of a symbol ----

  predicate Matches(r: Row, c: Collation, symbol: string) {
    r.key.source == YahooSpot.SOURCE && r.isCurrent && c.same(r.key.externalId, symbol)
  }

  /** The first match in symbol order, the default order of instruments. */
  function FirstMatch(rows: Rows, c: Collation, symbol: string): (found: Option<nat>)
    ensures found.None? ==> forall i :: 0 <= i < |rows| ==> !Matches(rows[i], c, symbol)
    ensures found.Some? ==> found.value < |rows| && Matches(rows[found.value], c, symbol)
    ensures found.Some? ==> forall i :: 0 <= i < |rows| && Matches(rows[i], c, symbol) ==>
                              c.rank(rows[found.value].tracked.symbol) <= c.rank(rows[i].tracked.symbol)
  {
    if rows == [] then None
    else
      var n := |rows| - 1;
      var before := FirstMatch(rows[..n], c, symbol);
      if !Matches(rows[n], c, symbol) then before
      else if before.Some? && c.rank(rows[before.value].tracked.symbol) <= c.rank(rows[n].tracked.symbol) then before
      else Some(n)
  }

  /** If the symbol is, but for case, the identifier of one instrument only, the row found is that
      instrument's current version. */
  lemma {:induction false} FoundIsCurrent(rows: Rows, c: Collation, symbol: string, id: string)
    requires WellFormed(rows) && c.same(id, symbol)
    requires forall i :: 0 <= i < |rows| && Matches(rows[i], c, symbol) ==> rows[i].key.externalId == id
    ensures FirstMatch(rows, c, symbol) == Current(rows, Key("yahoo_finance", id))
  {
    hide WellFormed, Current, FirstMatch;
    var found, key := FirstMatch(rows, c, symbol), Key(YahooSpot.SOURCE, id);
    if found.Some? {
      CurrentIsUnique(rows, key, found.value);
    }
  }

  // ---- the task ----

  /** Everything the task does, in every case: the number of candles upserted, or nothing if it
      raised. An unknown resolution, an unavailable chart, a missing source, a repeated key in a
      chunk and a candle without a partition raise; no candles and no instrument do not. */
  method IngestYahooCandles(store: Candles.CandleStore, spots: YahooSpot.SpotTable, db: Database, c: Collation,
                            chart: Chart, symbol: string, resolution: string, runId: string, now: int)
      returns (count: Option<nat>)
    modifies store, spots
    ensures var candles, found := CandlesOf(chart), FirstMatch(db.instruments, c, symbol);
            var fetched := resolution in {"1m", "5m", "15m", "1h", "4h", "1d"} && !chart.ChartError?;
            if !fetched || candles == [] || "yahoo_finance" !in db.sources || found == None then
              && store.rows == old(store.rows) && spots.spots == old(spots.spots)
              && count == if fetched && (candles == [] || "yahoo_finance" in db.sources) then Some(0) else None
            else
              var records := YahooChart.RecordsOf(candles, found.value, db.sources["yahoo_finance"], resolution);
              var accepted := Candles.Accepted(db.partitions, records, Candles.BATCH_SIZE);
              && spots.spots == (if chart.quote.price != 0.0 then old(spots.spots)[found.value := chart.quote]
                                 else old(spots.spots))
              && store.rows == (if accepted then Candles.Folded(old(store.rows), records, runId, now)
                                else old(store.rows))
              && count == if accepted then Some(|candles|) else None
  {
    hide Candles.Accepted, Candles.Folded, FirstMatch;
    if resolution !in RESOLUTIONS {
      return None;
    }
    match chart {
      case ChartError => return None;
      case NoResult => return Some(0);
      case Charted(quote, timestamps, quotes) =>
        var candles := YahooChart.ParseCandles(timestamps, quotes);
        if candles == [] {
          return Some(0);
        }
        if YahooSpot.SOURCE !in db.sources {
          return None;
        }
        var source, instrument := db.sources[YahooSpot.SOURCE], FirstMatch(db.instruments, c, symbol);
        if instrument == None {
          return Some(0);
        }
        if quote.price != 0.0 {
          spots.UpdateSpot(instrument.value, quote);
        }
        var records := YahooChart.RecordsOf(candles, instrument.value, source, resolution);
        count := store.UpsertCandles(db.partitions, records, runId, now);
    }
  }
}
