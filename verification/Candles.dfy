/** The batched candle upsert: many INSERT ... ON CONFLICT DO UPDATE statements in one
    transaction, against one last-writer-wins fold. */
module Candles {
  import opened Options
  import Partitions

  /** The natural key. */
  datatype Key = Key(instrument: int, source: int, resolution: string, ts: int)

  datatype Values = Values(open: real, high: real, low: real, close: real, volume: real)

  datatype Record = Record(key: Key, values: Values)

  /** `values` and `runId` are the updated columns; `ingestedAt` is set on insertion only. */
  datatype Row = Row(values: Values, runId: string, ingestedAt: int)

  type Table = map<Key, Row>

  const BATCH_SIZE: nat := 1000

  function Upserted(t: Table, r: Record, runId: string, now: int): Table {
    t[r.key := if r.key in t then t[r.key].(values := r.values, runId := runId)
               else Row(r.values, runId, now)]
  }

  /** One record after the other; the last writer wins. */
  function Folded(t: Table, records: seq<Record>, runId: string, now: int): Table {
    if records == [] then t
    else Upserted(Folded(t, records[..|records| - 1], runId, now), records[|records| - 1], runId, now)
  }

  predicate DistinctKeys(records: seq<Record>) {
    forall i, j :: 0 <= i < j < |records| ==> records[i].key != records[j].key
  }

  /** Every record has a partition to go to. */
  predicate AllRouted(partitions: Partitions.Table, records: seq<Record>) {
    forall i :: 0 <= i < |records| ==> Partitions.HasRoute(partitions, records[i].key.ts)
  }

  /** One statement: Postgres refuses to touch a conflict key twice, and a row without a partition. */
  function Inserted(partitions: Partitions.Table, t: Table, chunk: seq<Record>, runId: string,
                    now: int): Option<Table> {
    if DistinctKeys(chunk) && AllRouted(partitions, chunk) then Some(Folded(t, chunk, runId, now)) else None
  }

  function ChunkLength(records: seq<Record>, size: nat): (n: nat)
    requires 0 < size
    ensures n <= |records| && n <= size && (records != [] ==> 0 < n)
  {
    if |records| <= size then |records| else size
  }

  /** Statement by statement; the first refusal loses everything. */
  function InsertedInChunks(partitions: Partitions.Table, t: Table, records: seq<Record>, size: nat, runId: string,
                            now: int): Option<Table>
    requires 0 < size
    decreases |records|
  {
    if records == [] then Some(t)
    else
      var n := ChunkLength(records, size);
      match Inserted(partitions, t, records[..n], runId, now)
      case None => None
      case Some(u) => InsertedInChunks(partitions, u, records[n..], size, runId, now)
  }

  /** No chunk repeats a key. */
  predicate ChunksDistinct(records: seq<Record>, size: nat)
    requires 0 < size
    decreases |records|
  {
    records == []
    || (DistinctKeys(records[..ChunkLength(records, size)])
      && ChunksDistinct(records[ChunkLength(records, size)..], size))
  }

  /** The upsert goes through: no chunk repeats a key, and no record lacks a partition. */
  predicate Accepted(partitions: Partitions.Table, records: seq<Record>, size: nat)
    requires 0 < size
  {
    ChunksDistinct(records, size) && AllRouted(partitions, records)
  }

  // ---- chunking is invisible ----

  lemma {:induction false} FoldedConcat(t: Table, a: seq<Record>, b: seq<Record>, runId: string, now: int)
    ensures Folded(t, a + b, runId, now) == Folded(Folded(t, a, runId, now), b, runId, now)
    decreases |b|
  {
    hide Upserted;
    if b == [] {
      assert a + b == a;
    } else {
      assert (a + b)[..|a + b| - 1] == a + b[..|b| - 1];
      FoldedConcat(t, a, b[..|b| - 1], runId, now);
    }
  }

  lemma {:induction false} NothingToRoute(partitions: Partitions.Table)
    ensures AllRouted(partitions, [])
  {
  }

  lemma {:induction false} NothingFolded(t: Table, runId: string, now: int)
    ensures Folded(t, [], runId, now) == t
  {
  }

  lemma {:induction false} RoutedSplit(partitions: Partitions.Table, records: seq<Record>, n: nat)
    requires n <= |records|
    ensures AllRouted(partitions, records)
            <==> AllRouted(partitions, records[..n]) && AllRouted(partitions, records[n..])
  {
    hide Partitions.HasRoute;
    assert forall i :: n <= i < |records| ==> records[i] == records[n..][i - n];
  }

  /** The batched upsert is the fold when no chunk repeats a key and no record lacks a partition,
      and fails (leaving the table as it was) exactly when one does. */
  lemma {:induction false} ChunkingIsInvisible(partitions: Partitions.Table, t: Table, records: seq<Record>, size: nat,
                                               runId: string, now: int)
    requires 0 < size
    ensures InsertedInChunks(partitions, t, records, size, runId, now)
            == if Accepted(partitions, records, size) then Some(Folded(t, records, runId, now)) else None
    decreases |records|
  {
    hide Upserted, Folded, DistinctKeys, AllRouted;
    if records == [] {
      assert AllRouted(partitions, []) by { NothingToRoute(partitions); }
      assert Folded(t, [], runId, now) == t by { NothingFolded(t, runId, now); }
    } else {
      var n := ChunkLength(records, size);
      assert records == records[..n] + records[n..];
      RoutedSplit(partitions, records, n);
      FoldedConcat(t, records[..n], records[n..], runId, now);
      ChunkingIsInvisible(partitions, Folded(t, records[..n], runId, now), records[n..], size, runId, now);
    }
  }

  lemma {:induction false} QuotientUnique(i: nat, size: nat, q: nat, r: nat)
    requires 0 < size && r < size && i == q * size + r
    ensures i / size == q
  {
    var p := i / size;
    assert i == p * size + i % size;
    assert p < q ==> (p + 1) * size <= q * size;
    assert q < p ==> (q + 1) * size <= p * size;
  }

  lemma {:induction false} NextChunk(i: nat, size: nat)
    requires 0 < size
    ensures i < size ==> i / size == 0
    ensures (i + size) / size == i / size + 1
  {
    if i < size {
      QuotientUnique(i, size, 0, i);
    }
    QuotientUnique(i + size, size, i / size + 1, i % size);
  }

  /** Two records of one key fall into different chunks of `size`. */
  predicate Apart(records: seq<Record>, size: nat, i: nat, j: nat)
    requires 0 < size && i < j < |records|
  {
    records[i].key == records[j].key ==> i / size != j / size
  }

  lemma {:induction false} ApartByChunk(records: seq<Record>, size: nat, i: nat, j: nat)
    requires 0 < size && i < j < |records|
    ensures var n := ChunkLength(records, size);
            && (j < n ==> (Apart(records, size, i, j) <==> records[..n][i].key != records[..n][j].key))
            && (n <= i ==> (Apart(records, size, i, j) <==> Apart(records[n..], size, i - n, j - n)))
            && (i < n <= j ==> Apart(records, size, i, j))
  {
    var n := ChunkLength(records, size);
    NextChunk(i, size);
    NextChunk(j, size);
    if n <= j {
      NextChunk(j - n, size);
    }
    if n <= i {
      NextChunk(i - n, size);
    }
  }

  /** In terms of positions: the upsert is accepted exactly when no key occurs twice at positions
      with the same quotient by the batch size. */
  lemma {:induction false} ChunksDistinctIff(records: seq<Record>, size: nat)
    requires 0 < size
    ensures ChunksDistinct(records, size) <==> forall i, j :: 0 <= i < j < |records| ==> Apart(records, size, i, j)
    decreases |records|
  {
    hide Apart;
    if records != [] {
      var n := ChunkLength(records, size);
      var rest := records[n..];
      ChunksDistinctIff(rest, size);
      forall i, j | 0 <= i < j < |records| {
        ApartByChunk(records, size, i, j);
      }
      forall i, j | 0 <= i < j < |rest| ensures Apart(rest, size, i, j) <==> Apart(records, size, i + n, j + n) {
        ApartByChunk(records, size, i + n, j + n);
      }
    }
  }

  /** As it runs, with chunks of a thousand: the records are refused exactly when one lacks a
      partition or two of one key lie in the same thousand. */
  lemma {:induction false} AcceptedIff(partitions: Partitions.Table, records: seq<Record>)
    ensures Accepted(partitions, records, BATCH_SIZE) <==>
            && (forall i :: 0 <= i < |records| ==> Partitions.HasRoute(partitions, records[i].key.ts))
            && (forall i, j :: 0 <= i < j < |records| && records[i].key == records[j].key ==> i / 1000 != j / 1000)
  {
    hide ChunksDistinct, Partitions.HasRoute;
    ChunksDistinctIff(records, BATCH_SIZE);
    forall i, j | 0 <= i < j < |records|
      ensures Apart(records, BATCH_SIZE, i, j)
              <==> (records[i].key == records[j].key ==> i / 1000 != j / 1000)
    {
    }
  }

  lemma {:induction false} DistinctInEveryChunk(records: seq<Record>, size: nat)
    requires 0 < size && DistinctKeys(records)
    ensures ChunksDistinct(records, size)
    decreases |records|
  {
    if records != [] {
      DistinctInEveryChunk(records[ChunkLength(records, size)..], size);
    }
  }

  /** For distinct keys the chunk size does not matter. */
  lemma {:induction false} ChunkSizeDoesNotMatter(partitions: Partitions.Table, t: Table, records: seq<Record>,
                                                  size: nat, other: nat, runId: string, now: int)
    requires 0 < size && 0 < other && DistinctKeys(records)
    ensures InsertedInChunks(partitions, t, records, size, runId, now)
            == InsertedInChunks(partitions, t, records, other, runId, now)
            == if AllRouted(partitions, records) then Some(Folded(t, records, runId, now)) else None
  {
    hide InsertedInChunks, Folded, ChunksDistinct, DistinctKeys, AllRouted;
    DistinctInEveryChunk(records, size);
    DistinctInEveryChunk(records, other);
    ChunkingIsInvisible(partitions, t, records, size, runId, now);
    ChunkingIsInvisible(partitions, t, records, other, runId, now);
  }

  // ---- what the fold leaves behind ----

  /** The last record with a key. */
  function LastWith(records: seq<Record>, key: Key): (i: Option<nat>)
    ensures i.Some? ==> i.value < |records| && records[i.value].key == key
    ensures i.None? ==> forall j :: 0 <= j < |records| ==> records[j].key != key
    ensures i.Some? ==> forall j :: i.value < j < |records| ==> records[j].key != key
  {
    if records == [] then None
    else if records[|records| - 1].key == key then Some(|records| - 1)
    else LastWith(records[..|records| - 1], key)
  }

  /** What the table holds at a key: the values of its last record under this run, the insertion
      time if it was there before; keys without a record are untouched. */
  predicate HoldsAt(before: Table, after: Table, records: seq<Record>, runId: string, now: int, key: Key) {
    match LastWith(records, key)
    case None => (key in after <==> key in before) && (key in before ==> after[key] == before[key])
    case Some(i) =>
      key in after
      && after[key] == Row(records[i].values, runId, if key in before then before[key].ingestedAt else now)
  }

  lemma {:induction false} FoldedHolds(t: Table, records: seq<Record>, runId: string, now: int, key: Key)
    ensures HoldsAt(t, Folded(t, records, runId, now), records, runId, now, key)
  {
    if records != [] {
      FoldedHolds(t, records[..|records| - 1], runId, now, key);
    }
  }

  /** Columns outside the update list keep their value in every row that was there. */
  lemma {:induction false} OtherColumnsUntouched(t: Table, records: seq<Record>, runId: string, now: int, key: Key)
    requires key in t
    ensures key in Folded(t, records, runId, now)
    ensures Folded(t, records, runId, now)[key].ingestedAt == t[key].ingestedAt
  {
    hide Folded;
    FoldedHolds(t, records, runId, now, key);
  }

  lemma {:induction false} SameHolds(t: Table, a: Table, b: Table, records: seq<Record>, runId: string, now: int)
    requires forall key :: HoldsAt(t, a, records, runId, now, key) && HoldsAt(t, b, records, runId, now, key)
    ensures a == b
  {
    hide LastWith;
    forall key ensures (key in a <==> key in b) && (key in a ==> a[key] == b[key]) {
      assert HoldsAt(t, a, records, runId, now, key) && HoldsAt(t, b, records, runId, now, key);
    }
    assert forall key :: key in a ==> key in b;
    assert forall key :: key in b ==> key in a;
    assert a.Keys == b.Keys;
  }

  lemma {:induction false} PermutedLast(records: seq<Record>, permuted: seq<Record>, key: Key)
    requires DistinctKeys(records) && multiset(records) == multiset(permuted)
    ensures LastWith(records, key).Some? <==> LastWith(permuted, key).Some?
    ensures LastWith(records, key).Some? ==>
              records[LastWith(records, key).value] == permuted[LastWith(permuted, key).value]
  {
    var a, b := LastWith(records, key), LastWith(permuted, key);
    if a.Some? {
      assert records[a.value] in multiset(permuted);
      var j :| 0 <= j < |permuted| && permuted[j] == records[a.value];
    }
    if b.Some? {
      assert permuted[b.value] in multiset(records);
      var i :| 0 <= i < |records| && records[i] == permuted[b.value];
      assert a.Some? && a.value == i;
    }
  }

  /** For distinct keys the order of the records does not matter. */
  lemma {:induction false} OrderDoesNotMatter(t: Table, records: seq<Record>, permuted: seq<Record>, runId: string,
                                              now: int)
    requires DistinctKeys(records) && multiset(records) == multiset(permuted)
    ensures Folded(t, permuted, runId, now) == Folded(t, records, runId, now)
  {
    hide Folded, DistinctKeys, LastWith;
    var a, b := Folded(t, records, runId, now), Folded(t, permuted, runId, now);
    forall key ensures HoldsAt(t, a, records, runId, now, key) && HoldsAt(t, b, records, runId, now, key) {
      FoldedHolds(t, records, runId, now, key);
      FoldedHolds(t, permuted, runId, now, key);
      PermutedLast(records, permuted, key);
    }
    SameHolds(t, a, b, records, runId, now);
  }

  /** The table with the run id of every touched row replaced. */
  function Relabelled(t: Table, records: seq<Record>, runId: string): Table {
    map key | key in t :: if LastWith(records, key).Some? then t[key].(runId := runId) else t[key]
  }

  /** Ingesting the same records again, later and in another run, refreshes the run id of their
      rows and changes nothing else. */
  lemma {:induction false} ReplayOnlyRelabels(t: Table, records: seq<Record>, runId: string, now: int,
                                              again: string, later: int)
    ensures var once := Folded(t, records, runId, now);
            Folded(once, records, again, later) == Relabelled(once, records, again)
  {
    hide Folded, LastWith;
    var once := Folded(t, records, runId, now);
    var twice, relabelled := Folded(once, records, again, later), Relabelled(once, records, again);
    forall key
      ensures HoldsAt(once, twice, records, again, later, key) && HoldsAt(once, relabelled, records, again, later, key)
    {
      FoldedHolds(t, records, runId, now, key);
      FoldedHolds(once, records, again, later, key);
    }
    SameHolds(once, twice, relabelled, records, again, later);
  }

  /** Within one run a replay changes nothing at all. */
  lemma {:induction false} ReplayIsIdentity(t: Table, records: seq<Record>, runId: string, now: int, later: int)
    ensures var once := Folded(t, records, runId, now);
            Folded(once, records, runId, later) == once
  {
    hide Folded, LastWith;
    var once := Folded(t, records, runId, now);
    ReplayOnlyRelabels(t, records, runId, now, runId, later);
    forall key | key in once ensures Relabelled(once, records, runId)[key] == once[key] {
      FoldedHolds(t, records, runId, now, key);
    }
  }

  // ---- the service ----

  class CandleStore {
    var rows: Table

    constructor ()
      ensures rows == map[]
    {
      rows := map[];
    }

    /** `upsert_candles`: the number of records, or nothing (and no change) if a statement was
        refused and the transaction rolled back. */
    method UpsertCandles(partitions: Partitions.Table, records: seq<Record>, runId: string, now: int)
        returns (count: Option<nat>)
      modifies this
      ensures count == if Accepted(partitions, records, BATCH_SIZE) then Some(|records|) else None
      ensures rows == if Accepted(partitions, records, BATCH_SIZE) then Folded(old(rows), records, runId, now)
                      else old(rows)
    {
      hide Partitions.HasRoute;
      ChunkingIsInvisible(partitions, rows, records, BATCH_SIZE, runId, now);
      if records == [] {
        return Some(0);
      }
      var pending := rows;
      var start := 0;
      assert records[0..] == records;
      while start < |records|
        invariant start <= |records|
        invariant rows == old(rows)
        invariant InsertedInChunks(partitions, pending, records[start..], BATCH_SIZE, runId, now)
                  == InsertedInChunks(partitions, old(rows), records, BATCH_SIZE, runId, now)
      {
        var end := if start + BATCH_SIZE < |records| then start + BATCH_SIZE else |records|;
        var chunk := records[start..end];
        var n := end - start;
        assert records[start..][..n] == chunk && records[start..][n..] == records[end..];
        if !DistinctKeys(chunk) || !AllRouted(partitions, chunk) {
          return None;
        }
        pending := Insert(pending, chunk, runId, now);
        start := end;
      }
      rows := pending;
      return Some(|records|);
    }
  }

  /** One accepted INSERT ... ON CONFLICT DO UPDATE. */
  method Insert(t: Table, chunk: seq<Record>, runId: string, now: int) returns (u: Table)
    requires DistinctKeys(chunk)
    ensures u == Folded(t, chunk, runId, now)
  {
    u := t;
    for i := 0 to |chunk|
      invariant u == Folded(t, chunk[..i], runId, now)
    {
      u := Upserted(u, chunk[i], runId, now);
      assert chunk[..i + 1][..i] == chunk[..i];
    }
    assert chunk[..|chunk|] == chunk;
  }
}
