/** The same upsert run by any number of workers at once. Every action is one statement of one
    worker's transaction; writes become visible to others at commit, all of them or none. */
module InstrumentTransactions {
  import opened Options
  import opened InstrumentHistory

  datatype Write =
    | SetMetadata(row: nat, metadata: Metadata)
    | Close(row: nat, at: int)
    | Insert(inserted: Row)

  /** A row as it was read: its place in the table and its contents at that moment. */
  datatype Seen = Seen(index: nat, row: Row)

  /** Where a worker is in its transaction; `ticket` numbers the acquisitions of source locks. */
  datatype Phase =
    | Idle
    | Locked(v: Version, ticket: nat)
    | HasRead(v: Version, ticket: nat, current: Option<Seen>)
    | HasClosed(v: Version, ticket: nat, closed: nat)
    | Ready(v: Version, ticket: nat, writes: seq<Write>)

  datatype Status = Running | Committed | Aborted

  /** `locked[i]` is the version upserted under ticket `i`, `status[i]` how that transaction ended,
      and `commits` the tickets in order of commit. */
  datatype Database = Database(
    sources: set<string>,
    table: Rows,
    workers: seq<Phase>,
    locked: seq<Version>,
    status: seq<Status>,
    commits: seq<nat>)

  datatype Action =
    | LockSource(worker: nat, version: Version)
    | ReadCurrent(worker: nat)
    | WriteFirst(worker: nat)
    | InsertNew(worker: nat)
    | Commit(worker: nat)
    | Abort(worker: nat)

  /** Nobody else holds the lock on the row of `source`. */
  predicate LockIsFree(db: Database, source: string) {
    forall w :: 0 <= w < |db.workers| && !db.workers[w].Idle? ==> db.workers[w].v.key.source != source
  }

  predicate Enabled(db: Database, a: Action) {
    && a.worker < |db.workers|
    && var p := db.workers[a.worker];
       match a
       case LockSource(_, v) => p.Idle? && v.key.source in db.sources && LockIsFree(db, v.key.source)
       case ReadCurrent(_) => p.Locked?
       case WriteFirst(_) => p.HasRead?
       case InsertNew(_) => p.HasClosed?
       case Commit(_) => p.Ready? && p.ticket < |db.status|
       case Abort(_) => !p.Idle? && p.ticket < |db.status|
  }

  function Written(rows: Rows, w: Write): Rows {
    match w
    case SetMetadata(i, m) => if i < |rows| then rows[i := rows[i].(metadata := m)] else rows
    case Close(i, t) => if i < |rows| then rows[i := ClosedAt(rows[i], t)] else rows
    case Insert(r) => rows + [r]
  }

  function AllWritten(rows: Rows, writes: seq<Write>): Rows
    decreases |writes|
  {
    if writes == [] then rows else AllWritten(Written(rows, writes[0]), writes[1..])
  }

  /** The first statement after the read: insert, update metadata, close, or nothing at all. */
  function FirstWrite(p: Phase): Phase
    requires p.HasRead?
  {
    match p.current
    case None => Ready(p.v, p.ticket, [Insert(Opened(p.v))])
    case Some(seen) =>
      if seen.row.tracked != p.v.tracked then HasClosed(p.v, p.ticket, seen.index)
      else if seen.row.metadata != p.v.metadata then Ready(p.v, p.ticket, [SetMetadata(seen.index, p.v.metadata)])
      else Ready(p.v, p.ticket, [])
  }

  function Read(table: Rows, key: Key): Option<Seen> {
    match Current(table, key)
    case None => None
    case Some(i) => Some(Seen(i, table[i]))
  }

  function SetWorker(db: Database, w: nat, p: Phase): Database
    requires w < |db.workers|
  {
    db.(workers := db.workers[w := p])
  }

  function Perform(db: Database, a: Action): Database
    requires Enabled(db, a)
  {
    var p := db.workers[a.worker];
    match a
    case LockSource(w, v) =>
      SetWorker(db, w, Locked(v, |db.locked|)).(locked := db.locked + [v], status := db.status + [Running])
    case ReadCurrent(w) =>
      SetWorker(db, w, HasRead(p.v, p.ticket, Read(db.table, p.v.key)))
    case WriteFirst(w) =>
      SetWorker(db, w, FirstWrite(p))
    case InsertNew(w) =>
      SetWorker(db, w, Ready(p.v, p.ticket, [Close(p.closed, p.v.observedAt), Insert(Opened(p.v))]))
    case Commit(w) =>
      SetWorker(db, w, Idle).(table := AllWritten(db.table, p.writes),
                              status := db.status[p.ticket := Committed],
                              commits := db.commits + [p.ticket])
    case Abort(w) =>
      SetWorker(db, w, Idle).(status := db.status[p.ticket := Aborted])
  }

  function Step(db: Database, a: Action): Database {
    if Enabled(db, a) then Perform(db, a) else db
  }

  function Run(db: Database, actions: seq<Action>): Database {
    if actions == [] then db else Step(Run(db, actions[..|actions| - 1]), actions[|actions| - 1])
  }

  function Initial(sources: set<string>, workers: nat): Database {
    Database(sources, [], seq(workers, _ => Idle), [], [], [])
  }

  // ---- the two serial orders ----

  predicate TicketsExist(db: Database) {
    && |db.status| == |db.locked|
    && forall i :: 0 <= i < |db.commits| ==> db.commits[i] < |db.locked|
  }

  /** The committed upserts in order of commit. */
  function CommitOrder(locked: seq<Version>, commits: seq<nat>): seq<Version>
    requires forall i :: 0 <= i < |commits| ==> commits[i] < |locked|
  {
    if commits == [] then []
    else CommitOrder(locked, commits[..|commits| - 1]) + [locked[commits[|commits| - 1]]]
  }

  /** The committed upserts in the order in which they took their source lock. */
  function LockOrder(locked: seq<Version>, status: seq<Status>): seq<Version>
    requires |status| == |locked|
  {
    if locked == [] then []
    else
      var n := |locked| - 1;
      LockOrder(locked[..n], status[..n]) + if status[n].Committed? then [locked[n]] else []
  }

  function OfSource(log: seq<Version>, source: string): seq<Version> {
    if log == [] then []
    else
      var n := |log| - 1;
      OfSource(log[..n], source) + if log[n].key.source == source then [log[n]] else []
  }

  function RowsOfSource(rows: Rows, source: string): Rows {
    if rows == [] then []
    else
      var n := |rows| - 1;
      RowsOfSource(rows[..n], source) + if rows[n].key.source == source then [rows[n]] else []
  }

  // ---- the invariant ----

  /** What a worker holds is right for the table as it is committed now, although other workers
      have committed in the meantime. */
  predicate WorkerIsRight(db: Database, p: Phase) {
    !p.Idle? ==>
      && p.ticket < |db.locked| && |db.status| == |db.locked|
      && db.locked[p.ticket] == p.v && db.status[p.ticket].Running?
      && (forall i :: p.ticket < i < |db.locked| ==> db.locked[i].key.source != p.v.key.source)
      && WritesAreRight(db.table, p)
  }

  predicate WritesAreRight(table: Rows, p: Phase) {
    match p
    case Idle => true
    case Locked(_, _) => true
    case HasRead(v, _, current) =>
      current == Read(table, v.key)
    case HasClosed(v, _, i) =>
      Current(table, v.key) == Some(i) && table[i].tracked != v.tracked
    case Ready(v, _, writes) =>
      writes == Decision(table, v)
  }

  /** The writes that an upsert makes when it runs alone on `table`. */
  function Decision(table: Rows, v: Version): seq<Write> {
    match Current(table, v.key)
    case None => [Insert(Opened(v))]
    case Some(i) =>
      if table[i].tracked != v.tracked then [Close(i, v.observedAt), Insert(Opened(v))]
      else if table[i].metadata != v.metadata then [SetMetadata(i, v.metadata)]
      else []
  }

  predicate LocksExclude(workers: seq<Phase>) {
    forall w, x :: 0 <= w < x < |workers| && !workers[w].Idle? && !workers[x].Idle? ==>
      workers[w].v.key.source != workers[x].v.key.source
  }

  ghost predicate Inv(db: Database) {
    && TicketsExist(db)
    && LocksExclude(db.workers)
    && (forall w :: 0 <= w < |db.workers| ==> WorkerIsRight(db, db.workers[w]))
    && db.table == Folded([], CommitOrder(db.locked, db.commits))
    && (forall source :: OfSource(CommitOrder(db.locked, db.commits), source)
                         == OfSource(LockOrder(db.locked, db.status), source))
  }

  // ---- another key's upsert does not disturb what a worker has read ----

  lemma {:induction false} CurrentOfParts(a: Rows, r: Row, b: Rows, key: Key)
    requires IsCurrentFor(r, key) && forall i :: 0 <= i < |b| ==> !IsCurrentFor(b[i], key)
    ensures Current(a + [r] + b, key) == Some(|a|)
    decreases |b|
  {
    var rows := a + [r] + b;
    if b == [] {
      assert rows == a + [r];
    } else {
      assert rows[..|rows| - 1] == a + [r] + b[..|b| - 1];
      CurrentOfParts(a, r, b[..|b| - 1], key);
    }
  }

  lemma {:induction false} NoCurrent(rows: Rows, key: Key)
    requires forall i :: 0 <= i < |rows| ==> !IsCurrentFor(rows[i], key)
    ensures Current(rows, key) == None
  {
    if rows != [] {
      NoCurrent(rows[..|rows| - 1], key);
    }
  }

  lemma {:induction false} CurrentIsAt(rows: Rows, key: Key, i: nat)
    requires i < |rows| && IsCurrentFor(rows[i], key)
    requires forall j :: i < j < |rows| ==> !IsCurrentFor(rows[j], key)
    ensures Current(rows, key) == Some(i)
  {
    hide Current;
    assert rows == rows[..i] + [rows[i]] + rows[i + 1..];
    CurrentOfParts(rows[..i], rows[i], rows[i + 1..], key);
  }

  lemma {:induction false} OtherKeysRows(rows: Rows, other: Version, key: Key)
    requires other.key != key
    ensures |rows| <= |Upserted(rows, other)|
    ensures forall i :: 0 <= i < |Upserted(rows, other)| && IsCurrentFor(Upserted(rows, other)[i], key) ==>
              i < |rows| && Upserted(rows, other)[i] == rows[i]
    ensures forall i :: 0 <= i < |rows| && IsCurrentFor(rows[i], key) ==> Upserted(rows, other)[i] == rows[i]
  {
    hide Current;
  }

  lemma {:induction false} CurrentAfterOther(rows: Rows, other: Version, key: Key)
    requires other.key != key
    ensures Current(Upserted(rows, other), key) == Current(rows, key)
    ensures Current(rows, key).Some? ==>
              Current(rows, key).value < |Upserted(rows, other)|
              && Upserted(rows, other)[Current(rows, key).value] == rows[Current(rows, key).value]
  {
    hide Current, Upserted;
    OtherKeysRows(rows, other, key);
    match Current(rows, key)
    case None => NoCurrent(Upserted(rows, other), key);
    case Some(i) => CurrentIsAt(Upserted(rows, other), key, i);
  }

  /** Those writes, applied together, are the upsert. */
  lemma {:induction false} DecisionIsUpsert(table: Rows, v: Version)
    ensures AllWritten(table, Decision(table, v)) == Upserted(table, v)
  {
    var i := Current(table, v.key);
    var writes := Decision(table, v);
    if i.Some? && table[i.value].tracked != v.tracked {
      assert writes[1..] == [Insert(Opened(v))];
      assert AllWritten(table, writes) == AllWritten(Written(table, writes[0]), writes[1..]);
    } else if i.Some? && table[i.value].metadata == v.metadata {
      assert table[i.value := table[i.value].(metadata := v.metadata)] == table;
    }
  }

  lemma {:induction false} OthersStayRight(table: Rows, p: Phase, other: Version)
    requires WritesAreRight(table, p) && !p.Idle? && other.key.source != p.v.key.source
    ensures WritesAreRight(Upserted(table, other), p)
  {
    hide Current, Upserted;
    CurrentAfterOther(table, other, p.v.key);
  }

  // ---- how each action keeps the invariant ----

  lemma {:induction false} LockOrderAppend(locked: seq<Version>, status: seq<Status>, v: Version)
    requires |status| == |locked|
    ensures LockOrder(locked + [v], status + [Running]) == LockOrder(locked, status)
  {
    assert (locked + [v])[..|locked|] == locked && (status + [Running])[..|status|] == status;
  }

  lemma {:induction false} CommitOrderAppend(locked: seq<Version>, commits: seq<nat>, v: Version)
    requires forall i :: 0 <= i < |commits| ==> commits[i] < |locked|
    ensures CommitOrder(locked + [v], commits) == CommitOrder(locked, commits)
  {
    if commits != [] {
      CommitOrderAppend(locked, commits[..|commits| - 1], v);
    }
  }

  lemma {:induction false} LockOrderAbort(locked: seq<Version>, status: seq<Status>, t: nat)
    requires |status| == |locked| && t < |locked| && status[t].Running?
    ensures LockOrder(locked, status[t := Aborted]) == LockOrder(locked, status)
    decreases |locked|
  {
    var n := |locked| - 1;
    if t < n {
      LockOrderAbort(locked[..n], status[..n], t);
      assert status[t := Aborted][..n] == status[..n][t := Aborted];
    } else {
      assert status[t := Aborted][..n] == status[..n];
    }
  }

  lemma {:induction false} OfSourceAppend(log: seq<Version>, v: Version, source: string)
    ensures OfSource(log + [v], source) == OfSource(log, source) + if v.key.source == source then [v] else []
  {
    assert (log + [v])[..|log|] == log;
  }

  /** Committing a ticket that no later ticket of its source follows appends to that source's
      lock order, and leaves every other source's as it was. */
  lemma {:induction false} LockOrderCommit(locked: seq<Version>, status: seq<Status>, t: nat, source: string)
    requires |status| == |locked| && t < |locked| && status[t].Running?
    requires forall i :: t < i < |locked| ==> locked[i].key.source != locked[t].key.source
    ensures OfSource(LockOrder(locked, status[t := Committed]), source)
            == OfSource(LockOrder(locked, status), source)
               + if locked[t].key.source == source then [locked[t]] else []
    decreases |locked|
  {
    hide OfSource;
    var n := |locked| - 1;
    var after := status[t := Committed];
    if t < n {
      assert after[..n] == status[..n][t := Committed];
      LockOrderCommit(locked[..n], status[..n], t, source);
      OfSourceAppend(LockOrder(locked[..n], after[..n]), locked[n], source);
      OfSourceAppend(LockOrder(locked[..n], status[..n]), locked[n], source);
      if !status[n].Committed? {
        assert LockOrder(locked, after) == LockOrder(locked[..n], after[..n]);
        assert LockOrder(locked, status) == LockOrder(locked[..n], status[..n]);
      }
    } else {
      assert after[..n] == status[..n];
      assert LockOrder(locked, status) == LockOrder(locked[..n], status[..n]);
      OfSourceAppend(LockOrder(locked[..n], status[..n]), locked[n], source);
    }
  }

  lemma {:induction false} StepKeepsLocks(db: Database, a: Action)
    requires LocksExclude(db.workers)
    ensures LocksExclude(Step(db, a).workers)
  {
    hide Current;
    if Enabled(db, a) {
      var workers, w := Step(db, a).workers, a.worker;
      assert workers == db.workers[w := workers[w]];
      assert !a.LockSource? && !workers[w].Idle? ==> workers[w].v == db.workers[w].v && !db.workers[w].Idle?;
    }
  }

  /** Taking a source's lock begins a transaction and leaves the other workers right. */
  lemma {:induction false} LockKeepsInv(db: Database, a: Action)
    requires Inv(db) && Enabled(db, a) && a.LockSource?
    ensures Inv(Step(db, a))
  {
    hide Current, Folded, OfSource, LockOrder, CommitOrder, LocksExclude, WritesAreRight;
    var next := Step(db, a);
    StepKeepsLocks(db, a);
    LockOrderAppend(db.locked, db.status, a.version);
    CommitOrderAppend(db.locked, db.commits, a.version);
    forall w | 0 <= w < |next.workers| ensures WorkerIsRight(next, next.workers[w]) {
      if w == a.worker {
        LockedIsRight(next.table, next.workers[w]);
      } else {
        assert WorkerIsRight(db, db.workers[w]);
        assert !db.workers[w].Idle? ==> db.workers[w].v.key.source != a.version.key.source;
      }
    }
  }

  lemma {:induction false} LockedIsRight(table: Rows, p: Phase)
    requires p.Locked? || p.Idle?
    ensures WritesAreRight(table, p)
  {
  }

  lemma {:induction false} ProgressIsRight(db: Database, a: Action)
    requires Enabled(db, a) && (a.ReadCurrent? || a.WriteFirst? || a.InsertNew?)
    requires WritesAreRight(db.table, db.workers[a.worker])
    ensures WritesAreRight(Step(db, a).table, Step(db, a).workers[a.worker])
  {
  }

  /** An action of one worker that ends no transaction leaves the others right. */
  lemma {:induction false} ProgressKeepsInv(db: Database, a: Action)
    requires Inv(db) && Enabled(db, a) && (a.ReadCurrent? || a.WriteFirst? || a.InsertNew?)
    ensures Inv(Step(db, a))
  {
    hide Current, Folded, OfSource, LockOrder, CommitOrder, LocksExclude, WritesAreRight;
    var next := Step(db, a);
    StepKeepsLocks(db, a);
    assert WorkerIsRight(db, db.workers[a.worker]);
    ProgressIsRight(db, a);
    forall w | 0 <= w < |next.workers| ensures WorkerIsRight(next, next.workers[w]) {
      assert WorkerIsRight(db, db.workers[w]);
    }
  }

  lemma {:induction false} AbortKeepsInv(db: Database, a: Action)
    requires Inv(db) && Enabled(db, a) && a.Abort?
    ensures Inv(Step(db, a))
  {
    hide Current, Folded, OfSource, LockOrder, CommitOrder, WritesAreRight;
    var next, t := Step(db, a), db.workers[a.worker].ticket;
    StepKeepsLocks(db, a);
    assert WorkerIsRight(db, db.workers[a.worker]);
    LockOrderAbort(db.locked, db.status, t);
    forall w | 0 <= w < |next.workers| ensures WorkerIsRight(next, next.workers[w]) {
      assert WorkerIsRight(db, db.workers[w]);
      if w != a.worker && !db.workers[w].Idle? {
        OtherTicket(db, a.worker, w);
      }
    }
  }

  lemma {:induction false} OtherTicket(db: Database, w: nat, x: nat)
    requires LocksExclude(db.workers) && w < |db.workers| && x < |db.workers| && w != x
    requires !db.workers[w].Idle? && !db.workers[x].Idle?
    requires WorkerIsRight(db, db.workers[w]) && WorkerIsRight(db, db.workers[x])
    ensures db.workers[w].ticket != db.workers[x].ticket
    ensures db.workers[w].v.key.source != db.workers[x].v.key.source
  {
  }

  lemma {:induction false} CommitOrderStep(locked: seq<Version>, commits: seq<nat>, t: nat)
    requires t < |locked| && forall i :: 0 <= i < |commits| ==> commits[i] < |locked|
    ensures CommitOrder(locked, commits + [t]) == CommitOrder(locked, commits) + [locked[t]]
  {
    assert (commits + [t])[..|commits|] == commits;
  }

  lemma {:induction false} FoldStep(log: seq<Version>, v: Version)
    ensures Folded([], log + [v]) == Upserted(Folded([], log), v)
  {
    hide Upserted;
    assert (log + [v])[..|log|] == log;
  }

  lemma {:induction false} ReadyIsUpsert(table: Rows, p: Phase)
    requires p.Ready? && WritesAreRight(table, p)
    ensures AllWritten(table, p.writes) == Upserted(table, p.v)
  {
    hide AllWritten, Upserted, Decision;
    DecisionIsUpsert(table, p.v);
  }

  lemma {:induction false} CommitTable(db: Database, a: Action)
    requires Inv(db) && Enabled(db, a) && a.Commit?
    ensures var p := db.workers[a.worker];
            && Step(db, a).table == Upserted(db.table, p.v)
            && Step(db, a).table == Folded([], CommitOrder(db.locked, Step(db, a).commits))
  {
    hide Current, Folded, OfSource, LockOrder, CommitOrder, WritesAreRight, AllWritten, Upserted, LocksExclude;
    var p := db.workers[a.worker];
    assert WorkerIsRight(db, p);
    ReadyIsUpsert(db.table, p);
    CommitOrderStep(db.locked, db.commits, p.ticket);
    FoldStep(CommitOrder(db.locked, db.commits), p.v);
  }

  lemma {:induction false} CommitOrders(db: Database, a: Action, source: string)
    requires Inv(db) && Enabled(db, a) && a.Commit?
    requires forall i :: 0 <= i < |Step(db, a).commits| ==> Step(db, a).commits[i] < |db.locked|
    requires |Step(db, a).status| == |db.locked|
    ensures OfSource(CommitOrder(db.locked, Step(db, a).commits), source)
            == OfSource(LockOrder(db.locked, Step(db, a).status), source)
  {
    hide Current, Folded, OfSource, LockOrder, CommitOrder, WritesAreRight, AllWritten, LocksExclude;
    var p := db.workers[a.worker];
    assert WorkerIsRight(db, p);
    CommitOrderStep(db.locked, db.commits, p.ticket);
    OfSourceAppend(CommitOrder(db.locked, db.commits), p.v, source);
    LockOrderCommit(db.locked, db.status, p.ticket, source);
  }

  lemma {:induction false} CommitKeepsInv(db: Database, a: Action)
    requires Inv(db) && Enabled(db, a) && a.Commit?
    ensures Inv(Step(db, a))
  {
    hide Current, Folded, OfSource, LockOrder, CommitOrder, WritesAreRight, AllWritten, Upserted;
    var next, p := Step(db, a), db.workers[a.worker];
    StepKeepsLocks(db, a);
    assert WorkerIsRight(db, p);
    CommitTable(db, a);
    forall source
      ensures OfSource(CommitOrder(next.locked, next.commits), source)
           == OfSource(LockOrder(next.locked, next.status), source)
    {
      CommitOrders(db, a, source);
    }
    forall w | 0 <= w < |next.workers| ensures WorkerIsRight(next, next.workers[w]) {
      assert WorkerIsRight(db, db.workers[w]);
      if w != a.worker && !db.workers[w].Idle? {
        OtherTicket(db, a.worker, w);
        OthersStayRight(db.table, db.workers[w], p.v);
      }
    }
  }

  lemma {:induction false} StepKeepsInv(db: Database, a: Action)
    requires Inv(db)
    ensures Inv(Step(db, a))
  {
    hide Inv, Perform;
    if Enabled(db, a) {
      match a
      case LockSource(_, _) => LockKeepsInv(db, a);
      case Commit(_) => CommitKeepsInv(db, a);
      case Abort(_) => AbortKeepsInv(db, a);
      case _ => ProgressKeepsInv(db, a);
    }
  }

  lemma {:induction false} InitialInv(sources: set<string>, workers: nat)
    ensures Inv(Initial(sources, workers))
  {
  }

  lemma {:induction false} RunKeepsInv(sources: set<string>, workers: nat, actions: seq<Action>)
    ensures Inv(Run(Initial(sources, workers), actions))
  {
    hide Inv, Step;
    if actions == [] {
      InitialInv(sources, workers);
    } else {
      RunKeepsInv(sources, workers, actions[..|actions| - 1]);
      StepKeepsInv(Run(Initial(sources, workers), actions[..|actions| - 1]), actions[|actions| - 1]);
    }
  }

  // ---- a source's rows depend on that source's upserts only ----

  lemma {:induction false} RowsOfSourceConcat(a: Rows, b: Rows, source: string)
    ensures RowsOfSource(a + b, source) == RowsOfSource(a, source) + RowsOfSource(b, source)
    decreases |b|
  {
    if b == [] {
      assert a + b == a;
    } else {
      var n := |b| - 1;
      assert (a + b)[..|a + b| - 1] == a + b[..n];
      RowsOfSourceConcat(a, b[..n], source);
    }
  }

  lemma {:induction false} RowsOfSourceOne(r: Row, source: string)
    ensures RowsOfSource([r], source) == if r.key.source == source then [r] else []
  {
    assert [r][..0] == [];
  }

  lemma {:induction false} RowsOfSourceMembers(rows: Rows, source: string, key: Key)
    requires key.source == source
    requires forall i :: 0 <= i < |rows| ==> !IsCurrentFor(rows[i], key)
    ensures forall i :: 0 <= i < |RowsOfSource(rows, source)| ==> !IsCurrentFor(RowsOfSource(rows, source)[i], key)
    decreases |rows|
  {
    if rows != [] {
      RowsOfSourceMembers(rows[..|rows| - 1], source, key);
    }
  }

  lemma {:induction false} SplitAt(rows: Rows, i: nat, r: Row, source: string)
    requires i < |rows|
    ensures RowsOfSource(rows[i := r], source)
            == RowsOfSource(rows[..i], source) + (if r.key.source == source then [r] else [])
               + RowsOfSource(rows[i + 1..], source)
  {
    assert rows[i := r] == rows[..i] + [r] + rows[i + 1..];
    RowsOfSourceConcat(rows[..i], [r], source);
    RowsOfSourceConcat(rows[..i] + [r], rows[i + 1..], source);
    RowsOfSourceOne(r, source);
  }

  lemma {:induction false} UpsertBySource(rows: Rows, v: Version, source: string)
    ensures RowsOfSource(Upserted(rows, v), source)
            == if v.key.source == source then Upserted(RowsOfSource(rows, source), v) else RowsOfSource(rows, source)
  {
    hide RowsOfSource;
    match Current(rows, v.key)
    case None =>
      RowsOfSourceConcat(rows, [Opened(v)], source);
      RowsOfSourceOne(Opened(v), source);
      if v.key.source == source {
        RowsOfSourceMembers(rows, source, v.key);
        NoCurrent(RowsOfSource(rows, source), v.key);
      }
    case Some(i) =>
      var r := if rows[i].tracked == v.tracked then rows[i].(metadata := v.metadata)
               else ClosedAt(rows[i], v.observedAt);
      SplitAt(rows, i, rows[i], source);
      SplitAt(rows, i, r, source);
      assert rows[i := rows[i]] == rows;
      RowsOfSourceConcat(rows[i := r], [Opened(v)], source);
      RowsOfSourceOne(Opened(v), source);
      if v.key.source == source {
        var a, b := RowsOfSource(rows[..i], source), RowsOfSource(rows[i + 1..], source);
        RowsOfSourceMembers(rows[i + 1..], source, v.key);
        CurrentOfParts(a, rows[i], b, v.key);
        assert (a + [rows[i]] + b)[|a| := r] == a + [r] + b;
      }
  }

  lemma {:induction false} FoldBySource(log: seq<Version>, source: string)
    ensures RowsOfSource(Folded([], log), source) == Folded([], OfSource(log, source))
  {
    hide Upserted;
    if log != [] {
      var init, v := log[..|log| - 1], log[|log| - 1];
      FoldBySource(init, source);
      UpsertBySource(Folded([], init), v, source);
      if v.key.source == source {
        FoldStep(OfSource(init, source), v);
      } else {
        assert OfSource(log, source) == OfSource(init, source);
      }
    }
  }

  // ---- the theorems ----

  /** Any number of workers, any interleaving, any commits and aborts: the committed table is the
      one that the committed upserts make when run one after another in order of commit; and each
      source's rows are those its committed upserts make in the order they took the source's lock. */
  lemma {:induction false} Serialisable(sources: set<string>, workers: nat, actions: seq<Action>)
    ensures var db := Run(Initial(sources, workers), actions);
            && TicketsExist(db)
            && db.table == Folded([], CommitOrder(db.locked, db.commits))
            && forall source :: RowsOfSource(db.table, source)
                                == Folded([], OfSource(LockOrder(db.locked, db.status), source))
  {
    hide Folded, CommitOrder, LockOrder, OfSource, RowsOfSource, LocksExclude, WorkerIsRight;
    var db := Run(Initial(sources, workers), actions);
    RunKeepsInv(sources, workers, actions);
    forall source
      ensures RowsOfSource(db.table, source) == Folded([], OfSource(LockOrder(db.locked, db.status), source))
    {
      FoldBySource(CommitOrder(db.locked, db.commits), source);
    }
  }

  /** In every committed state every key that has a row has exactly one current row. */
  lemma {:induction false} AlwaysOneCurrent(sources: set<string>, workers: nat, actions: seq<Action>)
    ensures WellFormed(Run(Initial(sources, workers), actions).table)
    ensures OneCurrentPerKey(Run(Initial(sources, workers), actions).table)
  {
    hide Folded, CommitOrder, LockOrder, OfSource, LocksExclude, WorkerIsRight, WellFormed, OneCurrentPerKey;
    var db := Run(Initial(sources, workers), actions);
    RunKeepsInv(sources, workers, actions);
    EmptyIsWellFormed();
    FoldKeepsWellFormed([], CommitOrder(db.locked, db.commits));
    WellFormedHasOneCurrent(db.table);
  }

  /** A commit never meets the unique index on current rows: whatever a ready worker has decided
      to write leaves one current row per key in the table as it is then. */
  lemma {:induction false} CommitNeverConflicts(sources: set<string>, workers: nat, actions: seq<Action>, w: nat)
    requires w < |Run(Initial(sources, workers), actions).workers|
    requires Run(Initial(sources, workers), actions).workers[w].Ready?
    ensures var db := Run(Initial(sources, workers), actions);
            OneCurrentPerKey(AllWritten(db.table, db.workers[w].writes))
  {
    hide Folded, CommitOrder, LockOrder, OfSource, LocksExclude, WellFormed, OneCurrentPerKey, AllWritten,
         Upserted, WritesAreRight;
    var db := Run(Initial(sources, workers), actions);
    RunKeepsInv(sources, workers, actions);
    AlwaysOneCurrent(sources, workers, actions);
    assert WorkerIsRight(db, db.workers[w]);
    ReadyIsUpsert(db.table, db.workers[w]);
    UpsertKeepsWellFormed(db.table, db.workers[w].v);
    WellFormedHasOneCurrent(Upserted(db.table, db.workers[w].v));
  }

  // ---- every transaction can be carried out ----

  /** The statements of a transaction that has its lock. */
  function Rest(w: nat): seq<Action> {
    [ReadCurrent(w), WriteFirst(w), InsertNew(w), Commit(w)]
  }

  lemma {:induction false} NoActions(db: Database)
    ensures Run(db, []) == db
  {
  }

  lemma {:induction false} RunAppend(db: Database, actions: seq<Action>, a: Action)
    ensures Run(db, actions + [a]) == Step(Run(db, actions), a)
  {
    hide Step;
    assert (actions + [a])[..|actions|] == actions;
  }

  lemma {:induction false} RunTwo(db: Database, first: seq<Action>, second: seq<Action>)
    ensures Run(db, first + second) == Run(Run(db, first), second)
    decreases |second|
  {
    hide Step;
    if second == [] {
      assert first + second == first;
    } else {
      var n := |second| - 1;
      assert first + second == (first + second[..n]) + [second[n]];
      RunAppend(db, first + second[..n], second[n]);
      RunTwo(db, first, second[..n]);
    }
  }

  lemma {:induction false} RunOfRest(db: Database, w: nat)
    ensures Run(db, Rest(w))
            == Step(Step(Step(Step(db, ReadCurrent(w)), WriteFirst(w)), InsertNew(w)), Commit(w))
  {
    hide Step;
    var a, b, c, d := ReadCurrent(w), WriteFirst(w), InsertNew(w), Commit(w);
    assert Rest(w) == ((([] + [a]) + [b]) + [c]) + [d];
    RunAppend(db, [], a);
    RunAppend(db, [] + [a], b);
    RunAppend(db, ([] + [a]) + [b], c);
    RunAppend(db, (([] + [a]) + [b]) + [c], d);
  }

  /** Wherever a busy worker stands, its statements lead it to the decision on the table as it is. */
  lemma {:induction false} BecomesReady(db: Database, w: nat)
    requires w < |db.workers| && !db.workers[w].Idle? && WritesAreRight(db.table, db.workers[w])
    ensures var p := db.workers[w];
            Step(Step(Step(db, ReadCurrent(w)), WriteFirst(w)), InsertNew(w))
            == db.(workers := db.workers[w := Ready(p.v, p.ticket, Decision(db.table, p.v))])
  {
    hide Current;
    var p, decided := db.workers[w], Decision(db.table, db.workers[w].v);
    var db1 := Step(db, ReadCurrent(w));
    assert p.Locked? ==> db1 == db.(workers := db.workers[w := HasRead(p.v, p.ticket, Read(db.table, p.v.key))]);
    assert !p.Locked? ==> db1 == db;
    var db2 := Step(db1, WriteFirst(w));
    if p.Locked? || p.HasRead? {
      var i := Current(db.table, p.v.key);
      if i.Some? && db.table[i.value].tracked != p.v.tracked {
        assert db2 == db.(workers := db.workers[w := HasClosed(p.v, p.ticket, i.value)]);
      } else {
        assert db2 == db.(workers := db.workers[w := Ready(p.v, p.ticket, decided)]);
      }
    } else {
      assert db2 == db;
      assert p.Ready? ==> db.workers[w := p] == db.workers;
    }
  }

  /** The worker's transaction carried through: its upsert is in the table, its lock is free, and
      its ticket is the latest commit. */
  ghost predicate CarriedOut(db: Database, u: Database, w: nat, v: Version, ticket: nat)
    requires w < |db.workers|
  {
    && ticket < |u.locked| && u.locked[ticket] == v
    && u.table == Upserted(db.table, v)
    && u.workers == db.workers[w := Idle]
    && u.sources == db.sources
    && |db.status| <= |u.status| == |u.locked| && u.status[ticket] == Committed
    && (forall i :: 0 <= i < |db.status| && i != ticket ==> u.status[i] == db.status[i])
    && u.commits == db.commits + [ticket]
  }

  lemma {:induction false} BusyWorkerFinishes(db: Database, w: nat)
    requires Inv(db) && w < |db.workers| && !db.workers[w].Idle?
    ensures CarriedOut(db, Run(db, Rest(w)), w, db.workers[w].v, db.workers[w].ticket)
    ensures Run(db, Rest(w)).locked == db.locked
  {
    hide Current, Decision, AllWritten, Upserted, Folded, CommitOrder, LockOrder, OfSource, LocksExclude, Rest, Run,
         WritesAreRight;
    var p := db.workers[w];
    assert WorkerIsRight(db, p);
    RunOfRest(db, w);
    BecomesReady(db, w);
    var ready := Ready(p.v, p.ticket, Decision(db.table, p.v));
    assert WritesAreRight(db.table, ready) by { DecisionIsRight(db.table, ready); }
    ReadyIsUpsert(db.table, ready);
    assert db.workers[w := ready][w := Idle] == db.workers[w := Idle];
  }

  lemma {:induction false} DecisionIsRight(table: Rows, p: Phase)
    requires p.Ready? && p.writes == Decision(table, p.v)
    ensures WritesAreRight(table, p)
  {
  }

  lemma {:induction false} StepKeepsShape(db: Database, a: Action)
    ensures Step(db, a).sources == db.sources && |Step(db, a).workers| == |db.workers|
  {
  }

  lemma {:induction false} RunKeepsShape(db: Database, actions: seq<Action>)
    ensures Run(db, actions).sources == db.sources && |Run(db, actions).workers| == |db.workers|
  {
    hide Step;
    if actions != [] {
      RunKeepsShape(db, actions[..|actions| - 1]);
      StepKeepsShape(Run(db, actions[..|actions| - 1]), actions[|actions| - 1]);
    }
  }

  /** From every reachable state, whatever the others hold: an idle worker can upsert any version
      whose source exists and is not locked; its five statements carry the upsert out. */
  lemma {:induction false} IdleWorkerCanUpsert(sources: set<string>, workers: nat, actions: seq<Action>, w: nat,
                                               v: Version)
    requires w < workers && v.key.source in sources
    ensures var db := Run(Initial(sources, workers), actions);
            && |db.workers| == workers
            && (db.workers[w].Idle?
                && (forall x :: 0 <= x < workers && !db.workers[x].Idle? ==> db.workers[x].v.key.source != v.key.source)
                ==>
                  var u := Run(db, [LockSource(w, v), ReadCurrent(w), WriteFirst(w), InsertNew(w), Commit(w)]);
                  CarriedOut(db, u, w, v, |db.locked|) && u.locked == db.locked + [v])
  {
    hide Inv, Step, CarriedOut, Rest;
    var initial := Initial(sources, workers);
    var db := Run(initial, actions);
    RunKeepsShape(initial, actions);
    RunKeepsInv(sources, workers, actions);
    if db.workers[w].Idle?
       && forall x :: 0 <= x < workers && !db.workers[x].Idle? ==> db.workers[x].v.key.source != v.key.source
    {
      SoloRun(db, w, v);
    }
  }

  /** A worker begins a transaction if and only if it is idle, the source exists, and nobody else
      holds its lock; otherwise nothing happens (the worker waits, or its lookup has raised). */
  lemma {:induction false} BeginsIff(db: Database, w: nat, v: Version)
    ensures var u := Run(db, [LockSource(w, v)]);
            && (u != db <==>
                  && w < |db.workers| && db.workers[w].Idle? && v.key.source in db.sources
                  && forall x :: 0 <= x < |db.workers| && !db.workers[x].Idle? ==>
                       db.workers[x].v.key.source != v.key.source)
            && (u != db ==> u == db.(workers := db.workers[w := Locked(v, |db.locked|)], locked := db.locked + [v],
                                     status := db.status + [Running]))
  {
    var lock := LockSource(w, v);
    RunAppend(db, [], lock);
    assert [] + [lock] == [lock];
  }

  lemma {:induction false} LockIsTaken(db: Database, w: nat, v: Version)
    requires w < |db.workers| && db.workers[w].Idle? && v.key.source in db.sources
    requires forall x :: 0 <= x < |db.workers| && !db.workers[x].Idle? ==> db.workers[x].v.key.source != v.key.source
    ensures Step(db, LockSource(w, v))
            == db.(workers := db.workers[w := Locked(v, |db.locked|)], locked := db.locked + [v],
                   status := db.status + [Running])
  {
  }

  lemma {:induction false} SoloRun(db: Database, w: nat, v: Version)
    requires Inv(db) && w < |db.workers| && db.workers[w].Idle? && v.key.source in db.sources
    requires forall x :: 0 <= x < |db.workers| && !db.workers[x].Idle? ==> db.workers[x].v.key.source != v.key.source
    ensures var u := Run(db, [LockSource(w, v), ReadCurrent(w), WriteFirst(w), InsertNew(w), Commit(w)]);
            CarriedOut(db, u, w, v, |db.locked|) && u.locked == db.locked + [v]
  {
    var lock := LockSource(w, v);
    assert [lock, ReadCurrent(w), WriteFirst(w), InsertNew(w), Commit(w)] == ([] + [lock]) + Rest(w);
    hide Inv, Step, Rest, Upserted, Run;
    LockIsTaken(db, w, v);
    var locked := Step(db, lock);
    StepKeepsInv(db, lock);
    RunAppend(db, [], lock);
    assert Run(db, []) == db by { NoActions(db); }
    RunTwo(db, [] + [lock], Rest(w));
    BusyWorkerFinishes(locked, w);
    assert locked.workers[w := Idle] == db.workers == db.workers[w := Idle];
  }

  /** From every reachable state, whatever the others hold: a busy worker, wherever it stands, can
      commit the upsert it has begun, and can abort it, which changes nothing but its own state. */
  lemma {:induction false} BusyWorkerCanEnd(sources: set<string>, workers: nat, actions: seq<Action>, w: nat)
    requires w < workers
    ensures var db := Run(Initial(sources, workers), actions);
            && |db.workers| == workers
            && (!db.workers[w].Idle? ==>
                  var p := db.workers[w];
                  && CarriedOut(db, Run(db, [ReadCurrent(w), WriteFirst(w), InsertNew(w), Commit(w)]), w, p.v, p.ticket)
                  && p.ticket < |db.status|
                  && Run(db, [Abort(w)])
                     == db.(workers := db.workers[w := Idle], status := db.status[p.ticket := Aborted]))
  {
    hide Inv, CarriedOut;
    var initial := Initial(sources, workers);
    var db := Run(initial, actions);
    RunKeepsShape(initial, actions);
    RunKeepsInv(sources, workers, actions);
    if !db.workers[w].Idle? {
      BusyWorkerFinishes(db, w);
      assert WorkerIsRight(db, db.workers[w]) by { InvWorker(db, w); }
      RunAppend(db, [], Abort(w));
      assert [] + [Abort(w)] == [Abort(w)];
    }
  }

  lemma {:induction false} InvWorker(db: Database, w: nat)
    requires Inv(db) && w < |db.workers|
    ensures WorkerIsRight(db, db.workers[w])
  {
  }
}
