/** The daily catalogue refresh: one upsert per coin, and what a replay of it does. */
module CatalogSync {
  import opened Options
  import opened InstrumentHistory

  datatype Coin = Coin(coinId: string, symbol: string, name: string, marketCapRank: string)

  function VersionOf(coin: Coin, now: int): Version {
    Version(Key("coingecko", coin.coinId), Tracked(coin.symbol, coin.name, "crypto", "USD"),
            map["market_cap_rank" := coin.marketCapRank], now)
  }

  function VersionsOf(coins: seq<Coin>, now: int): (log: seq<Version>)
    ensures |log| == |coins| && forall i :: 0 <= i < |coins| ==> log[i] == VersionOf(coins[i], now)
  {
    seq(|coins|, i requires 0 <= i < |coins| => VersionOf(coins[i], now))
  }

  // ---- upserts that change nothing ----

  /** The key is current with these attributes. */
  predicate Settled(rows: Rows, v: Version) {
    Current(rows, v.key).Some? && rows[Current(rows, v.key).value].tracked == v.tracked
  }

  /** ... and with this metadata. */
  predicate FullySettled(rows: Rows, v: Version) {
    Settled(rows, v) && rows[Current(rows, v.key).value].metadata == v.metadata
  }

  /** The same rows up to metadata. */
  predicate SameVersions(a: Rows, b: Rows) {
    |a| == |b| && forall i :: 0 <= i < |a| ==> a[i] == b[i].(metadata := a[i].metadata)
  }

  lemma {:induction false} SameCurrent(a: Rows, b: Rows, key: Key)
    requires SameVersions(a, b)
    ensures Current(a, key) == Current(b, key)
  {
    if a != [] {
      var n := |a| - 1;
      assert a[n] == b[n].(metadata := a[n].metadata);
      assert SameVersions(a[..n], b[..n]);
      SameCurrent(a[..n], b[..n], key);
    }
  }

  lemma {:induction false} UpsertSettles(rows: Rows, v: Version)
    requires WellFormed(rows)
    ensures FullySettled(Upserted(rows, v), v)
  {
    var later := Upserted(rows, v);
    UpsertKeepsWellFormed(rows, v);
    match Current(rows, v.key)
    case None => CurrentIsUnique(later, v.key, |rows|);
    case Some(i) => CurrentIsUnique(later, v.key, if rows[i].tracked == v.tracked then i else |rows|);
  }

  lemma {:induction false} OtherKeyKeepsSettled(rows: Rows, v: Version, w: Version)
    requires WellFormed(rows) && v.key != w.key && Settled(rows, v)
    ensures Settled(Upserted(rows, w), v)
    ensures FullySettled(rows, v) ==> FullySettled(Upserted(rows, w), v)
  {
    var later, i := Upserted(rows, w), Current(rows, v.key).value;
    UpsertKeepsWellFormed(rows, w);
    assert later[i] == rows[i];
    CurrentIsUnique(later, v.key, i);
  }

  /** An upsert adds a row exactly when it finds its key unsettled. */
  lemma {:induction false} GrowsIffUnsettled(rows: Rows, v: Version)
    ensures |Upserted(rows, v)| == |rows| + if Settled(rows, v) then 0 else 1
    ensures Settled(rows, v) ==> SameVersions(Upserted(rows, v), rows)
    ensures FullySettled(rows, v) ==> Upserted(rows, v) == rows
  {
  }

  lemma {:induction false} NoGrowth(rows: Rows, log: seq<Version>)
    ensures |rows| <= |Folded(rows, log)|
    ensures |Folded(rows, log)| == |rows| ==>
              SameVersions(Folded(rows, log), rows) && forall i :: 0 <= i < |log| ==> Settled(rows, log[i])
  {
    hide Upserted, Settled;
    if log != [] {
      var init, v := log[..|log| - 1], log[|log| - 1];
      NoGrowth(rows, init);
      GrowsIffUnsettled(Folded(rows, init), v);
      if |Folded(rows, log)| == |rows| {
        SettledIn(Folded(rows, init), rows, v);
      }
    }
  }

  lemma {:induction false} SettledIn(a: Rows, b: Rows, v: Version)
    requires SameVersions(a, b)
    ensures Settled(a, v) <==> Settled(b, v)
  {
    hide Current;
    SameCurrent(a, b, v.key);
  }

  lemma {:induction false} AllSettled(rows: Rows, log: seq<Version>)
    requires forall i :: 0 <= i < |log| ==> Settled(rows, log[i])
    ensures SameVersions(Folded(rows, log), rows)
  {
    hide Upserted, Settled;
    if log != [] {
      var init, v := log[..|log| - 1], log[|log| - 1];
      AllSettled(rows, init);
      SettledIn(Folded(rows, init), rows, v);
      GrowsIffUnsettled(Folded(rows, init), v);
    }
  }

  lemma {:induction false} AllFullySettled(rows: Rows, log: seq<Version>)
    requires forall i :: 0 <= i < |log| ==> FullySettled(rows, log[i])
    ensures Folded(rows, log) == rows
  {
    hide Upserted, FullySettled;
    if log != [] {
      AllFullySettled(rows, log[..|log| - 1]);
      GrowsIffUnsettled(rows, log[|log| - 1]);
    }
  }

  // ---- replaying a catalogue ----

  /** Coins with the same id agree on what is tracked. */
  predicate Consistent(coins: seq<Coin>) {
    forall i, j :: 0 <= i < |coins| && 0 <= j < |coins| && coins[i].coinId == coins[j].coinId ==>
      coins[i].symbol == coins[j].symbol && coins[i].name == coins[j].name
  }

  predicate DistinctIds(coins: seq<Coin>) {
    forall i, j :: 0 <= i < j < |coins| ==> coins[i].coinId != coins[j].coinId
  }

  lemma {:induction false} ConsistentSettles(rows: Rows, coins: seq<Coin>, now: int, n: nat)
    requires WellFormed(rows) && Consistent(coins) && n <= |coins|
    ensures forall i :: 0 <= i < n ==> Settled(Folded(rows, VersionsOf(coins, now)[..n]), VersionOf(coins[i], now))
  {
    hide Settled, Upserted;
    if n != 0 {
      var log := VersionsOf(coins, now);
      ConsistentSettles(rows, coins, now, n - 1);
      var before, v := Folded(rows, log[..n - 1]), log[n - 1];
      assert log[..n][..n - 1] == log[..n - 1];
      assert Folded(rows, log[..n]) == Upserted(before, v);
      FoldKeepsWellFormed(rows, log[..n - 1]);
      SettledAfter(before, v);
      forall i | 0 <= i < n ensures Settled(Upserted(before, v), log[i]) {
        if log[i].key == v.key {
          assert coins[i].coinId == coins[n - 1].coinId;
          SettledAlike(Upserted(before, v), v, log[i]);
        } else {
          OtherKeyKeepsSettled(before, log[i], v);
        }
      }
    }
  }

  lemma {:induction false} SettledAfter(rows: Rows, v: Version)
    requires WellFormed(rows)
    ensures Settled(Upserted(rows, v), v)
  {
    UpsertSettles(rows, v);
  }

  lemma {:induction false} SettledAlike(rows: Rows, v: Version, w: Version)
    requires v.key == w.key && Settled(rows, v)
    ensures Settled(rows, w) <==> v.tracked == w.tracked
  {
  }

  lemma {:induction false} DistinctSettles(rows: Rows, coins: seq<Coin>, now: int, n: nat)
    requires WellFormed(rows) && DistinctIds(coins) && n <= |coins|
    ensures forall i :: 0 <= i < n ==> FullySettled(Folded(rows, VersionsOf(coins, now)[..n]), VersionOf(coins[i], now))
  {
    hide FullySettled, Upserted;
    if n != 0 {
      var log := VersionsOf(coins, now);
      DistinctSettles(rows, coins, now, n - 1);
      var before, v := Folded(rows, log[..n - 1]), log[n - 1];
      assert log[..n][..n - 1] == log[..n - 1];
      assert Folded(rows, log[..n]) == Upserted(before, v);
      FoldKeepsWellFormed(rows, log[..n - 1]);
      UpsertSettles(before, v);
      forall i | 0 <= i < n - 1 ensures FullySettled(Upserted(before, v), log[i]) {
        StaysFullySettled(before, log[i], v);
      }
    }
  }

  lemma {:induction false} StaysFullySettled(rows: Rows, v: Version, w: Version)
    requires WellFormed(rows) && v.key != w.key && FullySettled(rows, v)
    ensures FullySettled(Upserted(rows, w), v)
  {
    OtherKeyKeepsSettled(rows, v, w);
  }

  /** A catalogue of distinct ids, read again later, in any order, in part or with repetitions,
      leaves the table exactly as it is. */
  lemma {:induction false} ReplayIsIdentity(rows: Rows, coins: seq<Coin>, now: int, again: seq<Coin>, later: int)
    requires WellFormed(rows) && DistinctIds(coins)
    requires forall i :: 0 <= i < |again| ==> again[i] in coins
    ensures var table := Folded(rows, VersionsOf(coins, now));
            Folded(table, VersionsOf(again, later)) == table
  {
    hide FullySettled, Folded;
    var log := VersionsOf(coins, now);
    DistinctSettles(rows, coins, now, |coins|);
    assert log[..|coins|] == log;
    var table := Folded(rows, log);
    forall i | 0 <= i < |again| ensures FullySettled(table, VersionOf(again[i], later)) {
      var j :| 0 <= j < |coins| && coins[j] == again[i];
      assert FullySettled(table, VersionOf(coins[j], now));
      TimeDoesNotMatter(table, coins[j], now, later);
    }
    AllFullySettled(table, VersionsOf(again, later));
  }

  lemma {:induction false} TimeDoesNotMatter(rows: Rows, coin: Coin, now: int, later: int)
    ensures FullySettled(rows, VersionOf(coin, now)) <==> FullySettled(rows, VersionOf(coin, later))
    ensures Settled(rows, VersionOf(coin, now)) <==> Settled(rows, VersionOf(coin, later))
  {
  }

  /** For any catalogue, ids repeated or not: reading it again adds no rows if and only if coins
      with one id agree on symbol and name. */
  lemma {:induction false} ReplayAddsNoRowsIff(rows: Rows, coins: seq<Coin>, now: int, later: int)
    requires WellFormed(rows)
    ensures var table := Folded(rows, VersionsOf(coins, now));
            |Folded(table, VersionsOf(coins, later))| == |table| <==> Consistent(coins)
  {
    hide Settled, Folded;
    var log, replay := VersionsOf(coins, now), VersionsOf(coins, later);
    var table := Folded(rows, log);
    if Consistent(coins) {
      ConsistentSettles(rows, coins, now, |coins|);
      assert log[..|coins|] == log;
      forall i | 0 <= i < |coins| ensures Settled(table, replay[i]) {
        assert Settled(table, VersionOf(coins[i], now));
        TimeDoesNotMatter(table, coins[i], now, later);
      }
      AllSettled(table, replay);
    }
    NoGrowth(table, replay);
    if |Folded(table, replay)| == |table| {
      forall i, j | 0 <= i < |coins| && 0 <= j < |coins| && coins[i].coinId == coins[j].coinId
        ensures coins[i].symbol == coins[j].symbol && coins[i].name == coins[j].name
      {
        assert Settled(table, replay[i]) && Settled(table, replay[j]);
        SettledAlike(table, replay[i], replay[j]);
      }
    }
  }

  // ---- what a catalogue leaves behind ----

  lemma {:induction false} LastSettles(rows: Rows, coins: seq<Coin>, now: int, i: nat, n: nat)
    requires WellFormed(rows) && i < n <= |coins|
    requires forall j :: i < j < n ==> coins[j].coinId != coins[i].coinId
    ensures FullySettled(Folded(rows, VersionsOf(coins, now)[..n]), VersionOf(coins[i], now))
    decreases n
  {
    hide FullySettled, Upserted;
    var log := VersionsOf(coins, now);
    var before, v := Folded(rows, log[..n - 1]), log[n - 1];
    assert log[..n][..n - 1] == log[..n - 1];
    assert Folded(rows, log[..n]) == Upserted(before, v);
    FoldKeepsWellFormed(rows, log[..n - 1]);
    if i == n - 1 {
      UpsertSettles(before, v);
    } else {
      LastSettles(rows, coins, now, i, n - 1);
      StaysFullySettled(before, log[i], v);
    }
  }

  /** New rows start now, and rows closed now end now. */
  lemma {:induction false} RowsStartNow(rows: Rows, coins: seq<Coin>, now: int, n: nat)
    requires n <= |coins|
    ensures var table := Folded(rows, VersionsOf(coins, now)[..n]);
            && |rows| <= |table|
            && (forall j :: |rows| <= j < |table| ==> table[j].validFrom == now)
            && (forall j :: 0 <= j < |table| && table[j].validTo.Some? ==>
                  table[j].validTo == Some(now) || (j < |rows| && table[j].validTo == rows[j].validTo))
  {
    hide Current;
    var log := VersionsOf(coins, now);
    if n != 0 {
      RowsStartNow(rows, coins, now, n - 1);
      assert log[..n][..n - 1] == log[..n - 1];
      assert Folded(rows, log[..n]) == Upserted(Folded(rows, log[..n - 1]), log[n - 1]);
    }
  }

  /** After the job, the current row of an id shows the last coin of that id: its symbol and name, the
      class of crypto-currencies quoted in dollars, and its market rank; and what the job has added or
      closed is stamped with its time. */
  lemma {:induction false} CatalogIsCurrent(rows: Rows, coins: seq<Coin>, now: int, i: nat)
    requires WellFormed(rows) && i < |coins|
    requires forall j :: i < j < |coins| ==> coins[j].coinId != coins[i].coinId
    ensures var table := Folded(rows, VersionsOf(coins, now));
            var found := Current(table, Key("coingecko", coins[i].coinId));
            && found.Some?
            && table[found.value].tracked == Tracked(coins[i].symbol, coins[i].name, "crypto", "USD")
            && table[found.value].metadata == map["market_cap_rank" := coins[i].marketCapRank]
            && |rows| <= |table|
            && (forall j :: |rows| <= j < |table| ==> table[j].validFrom == now)
            && (forall j :: 0 <= j < |table| && table[j].validTo.Some? ==>
                  table[j].validTo == Some(now) || (j < |rows| && table[j].validTo == rows[j].validTo))
  {
    hide Folded;
    var log := VersionsOf(coins, now);
    assert log[..|coins|] == log;
    LastSettles(rows, coins, now, i, |coins|);
    RowsStartNow(rows, coins, now, |coins|);
  }

  // ---- the catalogue job ----

  /** `sync_coingecko_catalog`: the number of coins, or nothing if the source does not exist, in
      which case the first upsert raises and the table is untouched. */
  method SyncCatalog(table: InstrumentTable, coins: seq<Coin>, now: int) returns (count: Option<nat>)
    requires table.Valid()
    modifies table`rows
    ensures table.Valid()
    ensures coins != [] && "coingecko" !in table.sources ==> count == None && table.rows == old(table.rows)
    ensures coins == [] || "coingecko" in table.sources ==>
              count == Some(|coins|) && table.rows == Folded(old(table.rows), VersionsOf(coins, now))
  {
    ghost var log := VersionsOf(coins, now);
    var n := 0;
    for i := 0 to |coins|
      invariant table.Valid()
      invariant n == i
      invariant i == 0 || "coingecko" in table.sources
      invariant table.rows == Folded(old(table.rows), log[..i])
    {
      var instrument := table.Upsert(VersionOf(coins[i], now));
      if instrument == None {
        return None;
      }
      n := n + 1;
      assert log[..i + 1][..i] == log[..i];
    }
    assert log[..|coins|] == log;
    return Some(n);
  }
}
