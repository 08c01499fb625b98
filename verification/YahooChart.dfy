/** From a chart payload to candle rows: parsing the ragged arrays, and upserting what they hold. */
module YahooChart {
  import opened Options
  import Candles
  import Partitions

  /** An element of a JSON array: null, a number, or something no decimal can be made of. */
  datatype Json = Null | Number(value: real) | Other

  /** `_dec`. */
  function Dec(v: Json): Option<real> {
    match v
    case Null => None
    case Number(x) => Some(x)
    case Other => None
  }

  /** `_dec(v) or Decimal("0")`. */
  function OrZero(v: Json): real {
    match Dec(v)
    case None => 0.0
    case Some(x) => x
  }

  /** The parallel arrays of one quote block; any of them may be shorter than the timestamps. */
  datatype Arrays = Arrays(opens: seq<Json>, highs: seq<Json>, lows: seq<Json>, closes: seq<Json>, volumes: seq<Json>)

  datatype Candle = Candle(openTime: int, values: Candles.Values)

  function At(xs: seq<Json>, i: nat): Json {
    if i < |xs| then xs[i] else Null
  }

  /** Open, high, low and close are all there. */
  predicate Complete(q: Arrays, i: nat) {
    !At(q.opens, i).Null? && !At(q.highs, i).Null? && !At(q.lows, i).Null? && !At(q.closes, i).Null?
  }

  function CandleAt(timestamps: seq<int>, q: Arrays, i: nat): Candle
    requires i < |timestamps|
  {
    Candle(Partitions.Timestamp(timestamps[i]),
           Candles.Values(OrZero(At(q.opens, i)), OrZero(At(q.highs, i)), OrZero(At(q.lows, i)),
                          OrZero(At(q.closes, i)), OrZero(At(q.volumes, i))))
  }

  /** The positions below `n` that yield a candle, in order. */
  function Positions(q: Arrays, n: nat): seq<nat> {
    if n == 0 then [] else Positions(q, n - 1) + if Complete(q, n - 1) then [n - 1] else []
  }

  /** Exactly the complete positions, each once, in timestamp order. */
  lemma {:induction false} PositionsAreTheComplete(q: Arrays, n: nat)
    ensures forall i :: i in Positions(q, n) <==> 0 <= i < n && Complete(q, i)
    ensures forall j, k :: 0 <= j < k < |Positions(q, n)| ==> Positions(q, n)[j] < Positions(q, n)[k]
  {
    hide Complete;
    if n != 0 {
      PositionsAreTheComplete(q, n - 1);
      var before := Positions(q, n - 1);
      assert forall j :: 0 <= j < |before| ==> before[j] in before;
    }
  }

  function CandlesAt(timestamps: seq<int>, q: Arrays, positions: seq<nat>): (candles: seq<Candle>)
    requires forall j :: 0 <= j < |positions| ==> positions[j] < |timestamps|
    ensures |candles| == |positions|
    ensures forall j :: 0 <= j < |positions| ==> candles[j] == CandleAt(timestamps, q, positions[j])
  {
    if positions == [] then []
    else
      var n := |positions| - 1;
      CandlesAt(timestamps, q, positions[..n]) + [CandleAt(timestamps, q, positions[n])]
  }

  lemma {:induction false} PositionsInRange(q: Arrays, n: nat, m: nat)
    requires n <= m
    ensures forall j :: 0 <= j < |Positions(q, n)| ==> Positions(q, n)[j] < m
  {
    PositionsAreTheComplete(q, n);
    assert forall j :: 0 <= j < |Positions(q, n)| ==> Positions(q, n)[j] in Positions(q, n);
  }

  /** What `_parse_chart` makes of the arrays. */
  function Parsed(timestamps: seq<int>, quotes: seq<Arrays>): seq<Candle> {
    if timestamps == [] || quotes == [] then []
    else
      PositionsInRange(quotes[0], |timestamps|, |timestamps|);
      CandlesAt(timestamps, quotes[0], Positions(quotes[0], |timestamps|))
  }

  predicate Increasing(times: seq<int>) {
    forall i, j :: 0 <= i < j < |times| ==> times[i] < times[j]
  }

  predicate CandlesIncrease(candles: seq<Candle>) {
    forall i, j :: 0 <= i < j < |candles| ==> candles[i].openTime < candles[j].openTime
  }

  lemma {:induction false} ParsedIncreases(timestamps: seq<int>, quotes: seq<Arrays>)
    requires Increasing(timestamps)
    ensures CandlesIncrease(Parsed(timestamps, quotes))
  {
    hide Complete, CandlesAt, Positions;
    if timestamps != [] && quotes != [] {
      PositionsAreTheComplete(quotes[0], |timestamps|);
      var positions, candles := Positions(quotes[0], |timestamps|), Parsed(timestamps, quotes);
      forall i, j | 0 <= i < j < |candles| ensures candles[i].openTime < candles[j].openTime {
        assert positions[i] < positions[j] && positions[i] in positions && positions[j] in positions;
      }
    }
  }

  /** A candle is parsed exactly for the complete positions. */
  lemma {:induction false} ParsedMembers(timestamps: seq<int>, quotes: seq<Arrays>, c: Candle)
    ensures c in Parsed(timestamps, quotes) <==>
            exists i :: 0 <= i < |timestamps| && quotes != [] && Complete(quotes[0], i)
              && c == CandleAt(timestamps, quotes[0], i)
  {
    hide Complete, CandlesAt, Positions, CandleAt;
    if timestamps != [] && quotes != [] {
      PositionsAreTheComplete(quotes[0], |timestamps|);
      var positions, candles := Positions(quotes[0], |timestamps|), Parsed(timestamps, quotes);
      if c in candles {
        var j :| 0 <= j < |candles| && candles[j] == c;
        assert positions[j] in positions;
      }
      if i :| 0 <= i < |timestamps| && Complete(quotes[0], i) && c == CandleAt(timestamps, quotes[0], i) {
        assert i in positions;
        var j :| 0 <= j < |positions| && positions[j] == i;
        assert candles[j] == c;
      }
    }
  }

  /** There is an element at `i` that is not null. */
  predicate Present(xs: seq<Json>, i: nat) {
    i < |xs| && xs[i] != Null
  }

  /** The number at `i`; 0 if it is null, missing or not a number. */
  predicate ColumnIs(column: real, xs: seq<Json>, i: nat) {
    && (i < |xs| && xs[i].Number? ==> column == xs[i].value)
    && (!(i < |xs| && xs[i].Number?) ==> column == 0.0)
  }

  /** The candles, column by column: one for each position at which open, high, low and close are all
      there, in order; each column comes from its own array, at that position. */
  lemma {:induction false} ParsedColumns(timestamps: seq<int>, quotes: seq<Arrays>) returns (positions: seq<nat>)
    ensures var candles := Parsed(timestamps, quotes);
            && |positions| == |candles|
            && (quotes == [] ==> candles == [])
            && (forall i :: i in positions <==>
                  && 0 <= i < |timestamps| && quotes != []
                  && Present(quotes[0].opens, i) && Present(quotes[0].highs, i)
                  && Present(quotes[0].lows, i) && Present(quotes[0].closes, i))
            && (forall j, k :: 0 <= j < k < |positions| ==> positions[j] < positions[k])
            && (forall j :: 0 <= j < |candles| ==>
                  && positions[j] < |timestamps| && quotes != []
                  && candles[j].openTime == Partitions.Timestamp(timestamps[positions[j]])
                  && ColumnIs(candles[j].values.open, quotes[0].opens, positions[j])
                  && ColumnIs(candles[j].values.high, quotes[0].highs, positions[j])
                  && ColumnIs(candles[j].values.low, quotes[0].lows, positions[j])
                  && ColumnIs(candles[j].values.close, quotes[0].closes, positions[j])
                  && ColumnIs(candles[j].values.volume, quotes[0].volumes, positions[j]))
  {
    hide Positions, CandlesAt;
    if timestamps == [] || quotes == [] {
      positions := [];
    } else {
      var q := quotes[0];
      positions := Positions(q, |timestamps|);
      PositionsAreTheComplete(q, |timestamps|);
      PositionsInRange(q, |timestamps|, |timestamps|);
      var candles := Parsed(timestamps, quotes);
      assert candles == CandlesAt(timestamps, q, positions);
      forall j | 0 <= j < |candles| ensures candles[j] == CandleAt(timestamps, q, positions[j]) {
      }
    }
  }

  method ParseCandles(timestamps: seq<int>, quotes: seq<Arrays>) returns (candles: seq<Candle>)
    ensures candles == Parsed(timestamps, quotes)
  {
    candles := [];
    if timestamps == [] || quotes == [] {
      return;
    }
    var q := quotes[0];
    PositionsInRange(q, |timestamps|, |timestamps|);
    for i := 0 to |timestamps|
      invariant forall j :: 0 <= j < |Positions(q, i)| ==> Positions(q, i)[j] < |timestamps|
      invariant candles == CandlesAt(timestamps, q, Positions(q, i))
    {
      PositionsInRange(q, i + 1, |timestamps|);
      var o, h, l, c, v :=
        if i < |q.opens| then q.opens[i] else Null,
        if i < |q.highs| then q.highs[i] else Null,
        if i < |q.lows| then q.lows[i] else Null,
        if i < |q.closes| then q.closes[i] else Null,
        if i < |q.volumes| then q.volumes[i] else Null;
      if Null in [o, h, l, c] {
        assert !Complete(q, i);
        assert Positions(q, i + 1) == Positions(q, i);
        continue;
      }
      var values := Candles.Values(OrZero(o), OrZero(h), OrZero(l), OrZero(c), OrZero(v));
      candles := candles + [Candle(Partitions.Timestamp(timestamps[i]), values)];
      assert Complete(q, i);
      assert Positions(q, i + 1)[..|Positions(q, i)|] == Positions(q, i);
    }
  }

  // ---- parse, then upsert ----

  function RecordOf(c: Candle, instrument: int, source: int, resolution: string): Candles.Record {
    Candles.Record(Candles.Key(instrument, source, resolution, c.openTime), c.values)
  }

  function RecordsOf(candles: seq<Candle>, instrument: int, source: int,
                     resolution: string): (records: seq<Candles.Record>)
    ensures |records| == |candles|
    ensures forall i :: 0 <= i < |candles| ==> records[i] == RecordOf(candles[i], instrument, source, resolution)
  {
    seq(|candles|, i requires 0 <= i < |candles| => RecordOf(candles[i], instrument, source, resolution))
  }

  /** Strictly increasing timestamps give distinct natural keys, so no chunk repeats one. */
  lemma {:induction false} IncreasingGivesDistinctKeys(timestamps: seq<int>, quotes: seq<Arrays>, instrument: int,
                                                       source: int, resolution: string)
    requires Increasing(timestamps)
    ensures var records := RecordsOf(Parsed(timestamps, quotes), instrument, source, resolution);
            Candles.DistinctKeys(records) && Candles.ChunksDistinct(records, Candles.BATCH_SIZE)
  {
    hide Parsed;
    ParsedIncreases(timestamps, quotes);
    var records := RecordsOf(Parsed(timestamps, quotes), instrument, source, resolution);
    Candles.DistinctInEveryChunk(records, Candles.BATCH_SIZE);
  }

  predicate HasTime(candles: seq<Candle>, t: int) {
    exists i :: 0 <= i < |candles| && candles[i].openTime == t
  }

  lemma {:induction false} LastRecordAtTime(candles: seq<Candle>, instrument: int, source: int, resolution: string,
                                            key: Candles.Key)
    requires CandlesIncrease(candles)
    ensures var records := RecordsOf(candles, instrument, source, resolution);
            var last := Candles.LastWith(records, key);
            && (last.Some? <==> key == Candles.Key(instrument, source, resolution, key.ts) && HasTime(candles, key.ts))
            && forall i :: 0 <= i < |candles| && last.Some? && candles[i].openTime == key.ts ==> last.value == i
  {
    var records := RecordsOf(candles, instrument, source, resolution);
    var last := Candles.LastWith(records, key);
    if key == Candles.Key(instrument, source, resolution, key.ts) && HasTime(candles, key.ts) {
      var i :| 0 <= i < |candles| && candles[i].openTime == key.ts;
      assert records[i].key == key;
    }
    if last.Some? {
      assert candles[last.value].openTime == key.ts;
    }
  }

  /** Two windows of one instrument, ingested one after the other, seen at any key: the second
      window's values stand on the second window, the first window's values on what only the first
      has, and every other row is as it was. */
  lemma {:induction false} SecondWindowWins(t: Candles.Table, first: seq<Candle>, second: seq<Candle>,
                         instrument: int, source: int, resolution: string,
                         run1: string, now1: int, run2: string, now2: int, key: Candles.Key)
    requires CandlesIncrease(first) && CandlesIncrease(second)
    ensures var t1 := Candles.Folded(t, RecordsOf(first, instrument, source, resolution), run1, now1);
            var t2 := Candles.Folded(t1, RecordsOf(second, instrument, source, resolution), run2, now2);
            var ours := key == Candles.Key(instrument, source, resolution, key.ts);
            && (forall i :: 0 <= i < |second| && ours && second[i].openTime == key.ts ==>
                  key in t2 && t2[key].values == second[i].values && t2[key].runId == run2)
            && (forall i :: 0 <= i < |first| && ours && first[i].openTime == key.ts && !HasTime(second, key.ts) ==>
                  key in t2 && t2[key].values == first[i].values && t2[key].runId == run1)
            && (!ours || (!HasTime(first, key.ts) && !HasTime(second, key.ts)) ==>
                  (key in t2 <==> key in t) && (key in t2 ==> t2[key] == t[key]))
  {
    hide Candles.Folded, Candles.LastWith, CandlesIncrease;
    var r1, r2 := RecordsOf(first, instrument, source, resolution), RecordsOf(second, instrument, source, resolution);
    var t1 := Candles.Folded(t, r1, run1, now1);
    Candles.FoldedHolds(t, r1, run1, now1, key);
    Candles.FoldedHolds(t1, r2, run2, now2, key);
    LastRecordAtTime(first, instrument, source, resolution, key);
    LastRecordAtTime(second, instrument, source, resolution, key);
  }
}
