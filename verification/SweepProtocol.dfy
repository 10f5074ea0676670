/** The migration sweep (src/migrate/sweep.rs) as a protocol: any number of workers
    page through one table and share one durable checkpoint, any of them may die
    between two store calls, and other writers change the table in between. */
module SweepProtocol {
  import opened Envelopes
  import opened Rows
  import opened Wrappers

  /** What the sweep knows of a planner: its classification, its plan under the
      randomness the row's sealing draws, and the reader the plan must not disturb. */
  datatype RowRules<!R, !V> = RowRules(
    classify: StoredRow<R> -> Result<RowState>,
    plan: (StoredRow<R>, Entropy) -> Result<RowOutcome>,
    read: StoredRow<R> -> Result<V>)

  /** Row tallies of one pass (src/migrate/report.rs). */
  datatype Tally = Tally(current: nat, stale: nat, legacy: nat, malformed: nat, conflicts: nat) {
    function Record(state: RowState): Tally {
      match state
      case Current => this.(current := current + 1)
      case Stale => this.(stale := stale + 1)
      case Legacy => this.(legacy := legacy + 1)
    }

    predicate IsTerminal() {
      legacy == 0 && stale == 0 && malformed == 0
    }

    function Total(): nat {
      current + stale + legacy + malformed + conflicts
    }
  }

  const NO_ROWS := Tally(0, 0, 0, 0, 0)

  // ----- The store -----

  /** One loaded row: its unique cursor and the bytes read. */
  datatype SweepRow<+R> = SweepRow(cursor: int, row: StoredRow<R>)

  type Table<R> = map<int, StoredRow<R>>

  predicate After(after: Option<int>, cursor: int) {
    after.None? || after.value < cursor
  }

  /** Cursors are totally ordered, so a nonempty set of them has a least one. */
  lemma {:induction false} LeastExists(keys: set<int>, some: int)
    requires some in keys
    ensures exists k :: k in keys && forall j :: j in keys ==> k <= j
    decreases |keys|
  {
    var others := keys - {some};
    assert forall j :: j in keys ==> j == some || j in others;
    if less :| less in others && less < some {
      LeastExists(others, less);
      var least :| least in others && forall j :: j in others ==> least <= j;
      assert least in keys && forall j :: j in keys ==> least <= j;
    } else {
      assert some in keys && forall j :: j in keys ==> some <= j;
    }
  }

  /** The first cursor after `after`, in cursor order. */
  function NextCursor<R>(table: Table<R>, after: Option<int>): (next: Option<int>)
    ensures next.Some? ==> next.value in table && After(after, next.value)
    ensures forall k :: k in table && After(after, k) ==> next.Some? && next.value <= k
  {
    var keys := set k | k in table && After(after, k);
    assert forall k :: k in table && After(after, k) ==> k in keys;
    if some :| some in keys then
      LeastExists(keys, some);
      (var least :| least in keys && forall j :: j in keys ==> least <= j;
       Some(least))
    else None
  }

  /** The next `limit` rows in cursor order, or as many as there are. */
  function LoadBatch<R>(table: Table<R>, after: Option<int>, limit: nat): seq<SweepRow<R>>
    decreases limit
  {
    match NextCursor(table, after)
    case None => []
    case Some(cursor) =>
      if limit == 0 then []
      else [SweepRow(cursor, table[cursor])] + LoadBatch(table, Some(cursor), limit - 1)
  }

  /** Whether the row still holds the bytes `row` was loaded with. The record ID's
      columns are not compared. */
  predicate Matches<R>(table: Table<R>, row: SweepRow<R>) {
    && row.cursor in table
    && table[row.cursor].ciphertext == row.row.ciphertext
    && table[row.cursor].indexes == row.row.indexes
  }

  /** The compare-and-swap: replaces the bytes exactly when every one read is still
      there. */
  function Update<R>(table: Table<R>, row: SweepRow<R>, write: RowWrite): Table<R> {
    if Matches(table, row) then table[row.cursor := Written(table[row.cursor], write)] else table
  }

  // ----- The protocol -----

  /** A worker between two store calls. */
  datatype Worker<+R> =
    | Down
    | Ready(cursor: Option<int>, tally: Tally, loaded: nat)
    | Processing(after: Option<int>, batch: seq<SweepRow<R>>, done: nat, tally: Tally, loaded: nat)
    | Finished(tally: Tally, loaded: nat)
    | Failed(after: Option<int>, batch: seq<SweepRow<R>>, done: nat, error: Error)

  /** The table, the durable checkpoint, and the workers' memory. Two history variables
      record what happened: the cursors of successful updates, in order, and the rows
      another writer last left, behind the sweep, in a state that is not current. */
  datatype State<R> = State(
    table: Table<R>,
    checkpoint: Option<int>,
    workers: map<nat, Worker<R>>,
    updated: seq<int>,
    tainted: set<int>)
  {
    function Of(worker: nat): Worker<R> {
      if worker in workers then workers[worker] else Down
    }

    function With(worker: nat, memory: Worker<R>): State<R> {
      this.(workers := workers[worker := memory])
    }
  }

  /** A store failure ends a worker as a crash does, before or after its effect. */
  datatype Event<+R> =
    | Start(worker: nat)
    | Load(worker: nat)
    | Process(worker: nat, entropy: Entropy)
    | Save(worker: nat)
    | Crash(worker: nat)
    | Write(cursor: int, row: StoredRow<R>)
    | Delete(cursor: int)

  function LastCursor<R>(batch: seq<SweepRow<R>>): int
    requires batch != []
  {
    batch[|batch| - 1].cursor
  }

  /** Whether a worker has yet to answer for a row at `k`. */
  predicate Ahead<R>(worker: Worker<R>, k: int) {
    match worker
    case Down => true
    case Ready(cursor, _, _) => After(cursor, k)
    case Processing(_, batch, _, _, _) => batch != [] && LastCursor(batch) < k
    case Finished(_, _) => false
    case Failed(_, batch, done, _) => done < |batch| && batch[done].cursor <= k
  }

  /** No worker, and no worker resumed from the checkpoint, has passed `k`. */
  predicate Unswept<R>(s: State<R>, k: int) {
    After(s.checkpoint, k) && forall w :: w in s.workers ==> Ahead(s.workers[w], k)
  }

  /** Records whether the row at `cursor` was left not current behind the sweep. */
  function Taint<R, V>(rules: RowRules<R, V>, table: Table<R>, tainted: set<int>, cursor: int, behind: bool): set<int> {
    if cursor !in table || rules.classify(table[cursor]) == Ok(Current) then tainted - {cursor}
    else if behind then tainted + {cursor}
    else tainted
  }

  function LoadStep<R>(s: State<R>, limit: nat, w: nat): State<R>
    requires s.Of(w).Ready?
  {
    var worker := s.Of(w);
    var batch := LoadBatch(s.table, worker.cursor, limit);
    s.With(w, if batch == [] then Finished(worker.tally, worker.loaded)
              else Processing(worker.cursor, batch, 0, worker.tally, worker.loaded + |batch|))
  }

  /** Plans one row of the batch and applies its rewrite, if any. A lost compare-and-
      swap is counted and never retried. */
  function ProcessStep<R, V>(rules: RowRules<R, V>, s: State<R>, w: nat, entropy: Entropy): State<R>
    requires s.Of(w).Processing? && s.Of(w).done < |s.Of(w).batch|
  {
    var worker := s.Of(w);
    var row := worker.batch[worker.done];
    match rules.plan(row.row, entropy)
    case Err(error) => s.With(w, Failed(worker.after, worker.batch, worker.done, error))
    case Ok(Unchanged(state)) =>
      s.With(w, worker.(done := worker.done + 1, tally := worker.tally.Record(state)))
    case Ok(Rewrite(state, write)) =>
      if Matches(s.table, row) then
        var table := Update(s.table, row, write);
        s.(table := table,
           updated := s.updated + [row.cursor],
           tainted := Taint(rules, table, s.tainted, row.cursor, false))
        .With(w, worker.(done := worker.done + 1, tally := worker.tally.Record(state)))
      else
        s.With(w, worker.(done := worker.done + 1,
                          tally := worker.tally.(conflicts := worker.tally.conflicts + 1)))
  }

  function SaveStep<R>(s: State<R>, w: nat): State<R>
    requires s.Of(w).Processing? && s.Of(w).batch != []
  {
    var worker := s.Of(w);
    var last := LastCursor(worker.batch);
    s.(checkpoint := Some(last)).With(w, Ready(Some(last), worker.tally, worker.loaded))
  }

  function ForeignStep<R, V>(rules: RowRules<R, V>, s: State<R>, cursor: int, table: Table<R>): State<R> {
    s.(table := table, tainted := Taint(rules, table, s.tainted, cursor, !Unswept(s, cursor)))
  }

  /** One step; an event whose worker is not ready for it changes nothing. */
  function Step<R, V>(rules: RowRules<R, V>, limit: nat, s: State<R>, event: Event<R>): State<R> {
    match event
    case Start(w) => if s.Of(w).Down? then s.With(w, Ready(s.checkpoint, NO_ROWS, 0)) else s
    case Load(w) => if s.Of(w).Ready? then LoadStep(s, limit, w) else s
    case Process(w, entropy) =>
      if s.Of(w).Processing? && s.Of(w).done < |s.Of(w).batch| then ProcessStep(rules, s, w, entropy) else s
    case Save(w) =>
      if s.Of(w).Processing? && s.Of(w).done == |s.Of(w).batch| > 0 then SaveStep(s, w) else s
    case Crash(w) => s.With(w, Down)
    case Write(cursor, row) => ForeignStep(rules, s, cursor, s.table[cursor := row])
    case Delete(cursor) => ForeignStep(rules, s, cursor, s.table - {cursor})
  }

  /** The state after any interleaving of the workers, crashes, and other writers. */
  function Execute<R, V>(rules: RowRules<R, V>, limit: nat, s: State<R>, events: seq<Event<R>>): State<R> {
    if events == [] then s
    else Step(rules, limit, Execute(rules, limit, s, events[..|events| - 1]), events[|events| - 1])
  }

  lemma {:induction false} ExecuteOne<R, V>(
    rules: RowRules<R, V>, limit: nat, s: State<R>, events: seq<Event<R>>, event: Event<R>)
    ensures Execute(rules, limit, s, events + [event]) == Step(rules, limit, Execute(rules, limit, s, events), event)
  {
    assert (events + [event])[..|events|] == events;
  }

  lemma {:induction false} ExecuteInParts<R, V>(
    rules: RowRules<R, V>, limit: nat, s: State<R>, first: seq<Event<R>>, rest: seq<Event<R>>)
    ensures Execute(rules, limit, s, first + rest) == Execute(rules, limit, Execute(rules, limit, s, first), rest)
    decreases |rest|
  {
    if rest == [] {
      assert first + rest == first;
    } else {
      assert (first + rest)[..|first + rest| - 1] == first + rest[..|rest| - 1];
      ExecuteInParts(rules, limit, s, first, rest[..|rest| - 1]);
    }
  }

  /** A table with the checkpoint earlier runs left, and no worker running. */
  function Started<R>(table: Table<R>, checkpoint: Option<int>): State<R> {
    State(table, checkpoint, map[], [], {})
  }

  /** Any table, and no run before. */
  function Initial<R>(table: Table<R>): State<R> {
    Started(table, None)
  }

  predicate IsForeign<R>(event: Event<R>) {
    event.Write? || event.Delete?
  }

  // ----- What loading a batch returns -----

  predicate Ascending<R>(batch: seq<SweepRow<R>>) {
    forall i, j :: 0 <= i < j < |batch| ==> batch[i].cursor < batch[j].cursor
  }

  /** Each row of a batch lies after the cursor and holds the table's bytes. */
  ghost predicate RowsOf<R>(table: Table<R>, after: Option<int>, batch: seq<SweepRow<R>>) {
    forall i :: 0 <= i < |batch| ==>
      && After(after, batch[i].cursor)
      && batch[i].cursor in table
      && batch[i].row == table[batch[i].cursor]
  }

  predicate Has<R>(batch: seq<SweepRow<R>>, cursor: int) {
    exists i :: 0 <= i < |batch| && batch[i].cursor == cursor
  }

  /** No row between `after` and `last` is missing from the batch. */
  predicate Gapless<R>(table: Table<R>, after: Option<int>, batch: seq<SweepRow<R>>, last: int) {
    forall k :: k in table && After(after, k) && k <= last ==> Has(batch, k)
  }

  predicate Exhausted<R>(table: Table<R>, after: Option<int>, batch: seq<SweepRow<R>>) {
    forall k :: k in table && After(after, k) ==> Has(batch, k)
  }

  /** A batch is ascending, lies after the cursor, holds the table's rows, and skips no
      row up to its last, nor any at all when it is short. */
  lemma {:induction false} LoadBatchExact<R>(table: Table<R>, after: Option<int>, limit: nat)
    ensures var batch := LoadBatch(table, after, limit);
            && |batch| <= limit
            && Ascending(batch)
            && RowsOf(table, after, batch)
            && (batch != [] ==> Gapless(table, after, batch, LastCursor(batch)))
            && (|batch| < limit ==> Exhausted(table, after, batch))
    decreases limit
  {
    var next := NextCursor(table, after);
    if next.Some? && limit > 0 {
      var cursor := next.value;
      LoadBatchExact(table, Some(cursor), limit - 1);
      BatchStep(table, after, cursor, LoadBatch(table, Some(cursor), limit - 1));
    }
  }

  lemma BatchStep<R>(table: Table<R>, after: Option<int>, cursor: int, rest: seq<SweepRow<R>>)
    requires NextCursor(table, after) == Some(cursor)
    requires Ascending(rest) && RowsOf(table, Some(cursor), rest)
    ensures var batch := [SweepRow(cursor, table[cursor])] + rest;
            && Ascending(batch)
            && RowsOf(table, after, batch)
            && (rest == [] ==> Gapless(table, after, batch, cursor))
            && (rest != [] && Gapless(table, Some(cursor), rest, LastCursor(rest)) ==>
                Gapless(table, after, batch, LastCursor(batch)))
            && (Exhausted(table, Some(cursor), rest) ==> Exhausted(table, after, batch))
  {
    var batch := [SweepRow(cursor, table[cursor])] + rest;
    assert batch[0].cursor == cursor;
    forall k | k == cursor || Has(rest, k)
      ensures Has(batch, k)
    {
      if k != cursor {
        var i :| 0 <= i < |rest| && rest[i].cursor == k;
        assert batch[i + 1].cursor == k;
      }
    }
  }
}
