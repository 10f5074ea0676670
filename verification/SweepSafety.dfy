/** What every interleaving of the sweep keeps. The premises are the planner's laws,
    which `Migration` proves of the real planner. */
module SweepSafety {
  import opened Envelopes
  import opened Rows
  import opened SweepProtocol
  import opened Wrappers

  // ----- The planner's laws, as the sweep uses them -----

  ghost predicate PlanRefines<R, V>(rules: RowRules<R, V>, row: StoredRow<R>, entropy: Entropy) {
    var planned := rules.plan(row, entropy);
    planned.Ok? ==>
      && rules.classify(row) == Ok(planned.value.state)
      && (planned.value.Unchanged? <==> planned.value.state == Current)
  }

  ghost predicate PlanConverges<R, V>(rules: RowRules<R, V>, row: StoredRow<R>, entropy: Entropy) {
    var planned := rules.plan(row, entropy);
    planned.Ok? && planned.value.Rewrite? ==> rules.classify(Written(row, planned.value.write)) == Ok(Current)
  }

  ghost predicate PlanKeepsValue<R, V>(rules: RowRules<R, V>, row: StoredRow<R>, entropy: Entropy) {
    var planned := rules.plan(row, entropy);
    planned.Ok? && planned.value.Rewrite? ==> rules.read(Written(row, planned.value.write)) == rules.read(row)
  }

  ghost predicate BytesDecide<R, V>(rules: RowRules<R, V>, row: StoredRow<R>, columns: R) {
    rules.classify(row).Ok? && rules.classify(row) != Ok(Current) ==>
      rules.classify(StoredRow(columns, row.ciphertext, row.indexes)) != Ok(Current)
  }

  ghost predicate Lawful<R(!new), V>(rules: RowRules<R, V>) {
    && (forall row, entropy :: PlanRefines(rules, row, entropy))
    && (forall row, entropy :: PlanConverges(rules, row, entropy))
    && (forall row, entropy :: PlanKeepsValue(rules, row, entropy))
    && (forall row, columns :: BytesDecide(rules, row, columns))
  }

  ghost predicate IsCurrent<R, V>(rules: RowRules<R, V>, row: StoredRow<R>) {
    rules.classify(row) == Ok(Current)
  }

  // ----- The invariant -----

  /** The row at `k` is current, or another writer's work behind the sweep. */
  ghost predicate Settled<R, V>(rules: RowRules<R, V>, s: State<R>, k: int) {
    k in s.table ==> IsCurrent(rules, s.table[k]) || k in s.tainted
  }

  /** The row at `k` is still to be processed, with exactly the bytes loaded. */
  ghost predicate Pending<R>(s: State<R>, batch: seq<SweepRow<R>>, done: nat, k: int) {
    exists i :: done <= i < |batch| && batch[i].cursor == k && k in s.table && batch[i].row == s.table[k]
  }

  /** Every row up to `through` is settled or pending. */
  ghost predicate Swept<R, V>(
    rules: RowRules<R, V>, s: State<R>, through: Option<int>, batch: seq<SweepRow<R>>, done: nat)
  {
    forall k :: !After(through, k) ==> Settled(rules, s, k) || Pending(s, batch, done, k)
  }

  ghost predicate GoodBatch<R>(after: Option<int>, batch: seq<SweepRow<R>>, done: nat) {
    && 0 < |batch|
    && done <= |batch|
    && Ascending(batch)
    && forall i :: 0 <= i < |batch| ==> After(after, batch[i].cursor)
  }

  /** What a worker may rely on after any interleaving. */
  ghost predicate WorkerSound<R, V>(rules: RowRules<R, V>, s: State<R>, worker: Worker<R>) {
    match worker
    case Down => true
    case Ready(cursor, _, _) => Swept(rules, s, cursor, [], 0)
    case Processing(after, batch, done, _, _) =>
      GoodBatch(after, batch, done) && Swept(rules, s, Some(LastCursor(batch)), batch, done)
    case Finished(_, _) => forall k :: Settled(rules, s, k)
    case Failed(after, batch, done, _) =>
      && GoodBatch(after, batch, done) && done < |batch|
      && forall k :: k < batch[done].cursor ==> Settled(rules, s, k)
  }

  /** The inductive invariant: the durable checkpoint and every worker's memory are
      sound, and a tainted row is one another writer left not current. */
  ghost predicate Inv<R, V>(rules: RowRules<R, V>, s: State<R>) {
    && Swept(rules, s, s.checkpoint, [], 0)
    && (forall w :: WorkerSound(rules, s, s.Of(w)))
    && (forall k :: k in s.tainted ==> k in s.table && !IsCurrent(rules, s.table[k]))
  }

  // ----- Preservation -----

  /** `t` differs from `s` at most in the row at `k`. */
  ghost predicate ChangesOnly<R>(s: State<R>, t: State<R>, k: int) {
    forall j :: j != k ==>
      && (j in s.table <==> j in t.table)
      && (j in s.table ==> s.table[j] == t.table[j])
      && (j in s.tainted <==> j in t.tainted)
  }

  lemma SweptKept<R, V>(
    rules: RowRules<R, V>, s: State<R>, t: State<R>, k: int, through: Option<int>, batch: seq<SweepRow<R>>, done: nat)
    requires ChangesOnly(s, t, k) && (Settled(rules, t, k) || After(through, k))
    requires Swept(rules, s, through, batch, done)
    ensures Swept(rules, t, through, batch, done)
  {
    forall j | !After(through, j)
      ensures Settled(rules, t, j) || Pending(t, batch, done, j)
    {
      assert Settled(rules, s, j) || Pending(s, batch, done, j);
    }
  }

  /** A change that leaves its row settled, or that a worker has yet to reach, does not
      disturb the worker. */
  lemma WorkerKept<R, V>(rules: RowRules<R, V>, s: State<R>, t: State<R>, k: int, worker: Worker<R>)
    requires ChangesOnly(s, t, k) && (Settled(rules, t, k) || Ahead(worker, k))
    requires WorkerSound(rules, s, worker)
    ensures WorkerSound(rules, t, worker)
  {
    match worker
    case Down =>
    case Ready(cursor, _, _) => SweptKept(rules, s, t, k, cursor, [], 0);
    case Processing(_, batch, done, _, _) => SweptKept(rules, s, t, k, Some(LastCursor(batch)), batch, done);
    case Finished(_, _) =>
      forall j
        ensures Settled(rules, t, j)
      {
        assert Settled(rules, s, j);
      }
    case Failed(_, batch, done, _) =>
      forall j | j < batch[done].cursor
        ensures Settled(rules, t, j)
      {
        assert Settled(rules, s, j);
      }
  }

  lemma WorkersKept<R, V>(rules: RowRules<R, V>, s: State<R>, t: State<R>, k: int)
    requires ChangesOnly(s, t, k) && (Settled(rules, t, k) || Unswept(s, k))
    requires Swept(rules, s, s.checkpoint, [], 0)
    requires forall w :: WorkerSound(rules, s, s.Of(w))
    requires t.workers == s.workers
    ensures Swept(rules, t, s.checkpoint, [], 0)
    ensures forall w :: WorkerSound(rules, t, t.Of(w))
  {
    SweptKept(rules, s, t, k, s.checkpoint, [], 0);
    forall w
      ensures WorkerSound(rules, t, t.Of(w))
    {
      assert WorkerSound(rules, s, s.Of(w)) && t.Of(w) == s.Of(w);
      WorkerKept(rules, s, t, k, s.Of(w));
    }
  }

  /** Only one worker's memory changed, and it is sound. */
  lemma WithKept<R, V>(rules: RowRules<R, V>, s: State<R>, w: nat, memory: Worker<R>)
    requires Inv(rules, s)
    requires WorkerSound(rules, s, memory)
    ensures Inv(rules, s.With(w, memory))
  {
    var t := s.With(w, memory);
    SameTable(rules, s, t, s.checkpoint, [], 0);
    forall v
      ensures WorkerSound(rules, t, t.Of(v))
    {
      assert t.Of(v) == if v == w then memory else s.Of(v);
      assert WorkerSound(rules, s, s.Of(v));
      SoundSameTable(rules, s, t, t.Of(v));
    }
  }

  lemma SameTable<R, V>(
    rules: RowRules<R, V>, s: State<R>, t: State<R>, through: Option<int>, batch: seq<SweepRow<R>>, done: nat)
    requires s.table == t.table && s.tainted == t.tainted
    ensures Swept(rules, s, through, batch, done) <==> Swept(rules, t, through, batch, done)
  {
    forall k
      ensures Settled(rules, s, k) <==> Settled(rules, t, k)
      ensures Pending(s, batch, done, k) <==> Pending(t, batch, done, k)
    {
    }
  }

  lemma SoundSameTable<R, V>(rules: RowRules<R, V>, s: State<R>, t: State<R>, worker: Worker<R>)
    requires s.table == t.table && s.tainted == t.tainted
    ensures WorkerSound(rules, s, worker) <==> WorkerSound(rules, t, worker)
  {
    match worker
    case Down =>
    case Ready(cursor, _, _) => SameTable(rules, s, t, cursor, [], 0);
    case Processing(_, batch, done, _, _) =>
      if batch != [] { SameTable(rules, s, t, Some(LastCursor(batch)), batch, done); }
    case _ =>
      forall k
        ensures Settled(rules, s, k) <==> Settled(rules, t, k)
      {
      }
  }

  /** Loading extends what the worker answers for to the end of its batch, or of the
      table when nothing is left. */
  lemma LoadKept<R, V>(rules: RowRules<R, V>, limit: nat, s: State<R>, w: nat)
    requires limit > 0 && Inv(rules, s) && s.Of(w).Ready?
    ensures Inv(rules, LoadStep(s, limit, w))
  {
    var worker := s.Of(w);
    var batch := LoadBatch(s.table, worker.cursor, limit);
    LoadBatchExact(s.table, worker.cursor, limit);
    assert WorkerSound(rules, s, worker);
    var memory := LoadStep(s, limit, w).Of(w);
    forall k | batch == [] || k <= LastCursor(batch)
      ensures Settled(rules, s, k) || Pending(s, batch, 0, k)
    {
      if !After(worker.cursor, k) {
        assert Settled(rules, s, k) || Pending(s, [], 0, k);
      } else if k in s.table {
        assert Has(batch, k);
      }
    }
    WithKept(rules, s, w, memory);
  }

  lemma SaveKept<R, V>(rules: RowRules<R, V>, s: State<R>, w: nat)
    requires Inv(rules, s)
    requires s.Of(w).Processing? && s.Of(w).done == |s.Of(w).batch| > 0
    ensures Inv(rules, SaveStep(s, w))
  {
    var worker := s.Of(w);
    var last := LastCursor(worker.batch);
    assert WorkerSound(rules, s, worker);
    forall k | !After(Some(last), k)
      ensures Settled(rules, s, k)
    {
      assert Settled(rules, s, k) || Pending(s, worker.batch, worker.done, k);
    }
    assert Swept(rules, s, Some(last), [], 0);
    var moved := s.(checkpoint := Some(last));
    SameTable(rules, s, moved, Some(last), [], 0);
    forall v
      ensures WorkerSound(rules, moved, moved.Of(v))
    {
      SoundSameTable(rules, s, moved, s.Of(v));
    }
    WithKept(rules, moved, w, Ready(Some(last), worker.tally, worker.loaded));
  }

  lemma ForeignKept<R, V>(rules: RowRules<R, V>, s: State<R>, k: int, table: Table<R>)
    requires Inv(rules, s)
    requires forall j :: j != k ==> (j in s.table <==> j in table) && (j in table ==> table[j] == s.table[j])
    ensures Inv(rules, ForeignStep(rules, s, k, table))
  {
    var t := ForeignStep(rules, s, k, table);
    assert Settled(rules, t, k) || Unswept(s, k);
    WorkersKept(rules, s, t, k);
  }

  /** A row leaves a batch only settled. Its rewrite lands on exactly the bytes it was
      planned from, and is current; a lost rewrite was lost to a settled row. */
  lemma ProcessKept<R(!new), V>(rules: RowRules<R, V>, s: State<R>, w: nat, entropy: Entropy)
    requires Lawful(rules) && Inv(rules, s)
    requires s.Of(w).Processing? && s.Of(w).done < |s.Of(w).batch|
    ensures Inv(rules, ProcessStep(rules, s, w, entropy))
  {
    var worker := s.Of(w);
    var row := worker.batch[worker.done];
    var k := row.cursor;
    assert WorkerSound(rules, s, worker);
    assert PlanRefines(rules, row.row, entropy) && PlanConverges(rules, row.row, entropy);
    assert Settled(rules, s, k) || Pending(s, worker.batch, worker.done, k);
    var planned := rules.plan(row.row, entropy);
    if planned.Err? {
      FailureIsSound(rules, s, w);
      WithKept(rules, s, w, Failed(worker.after, worker.batch, worker.done, planned.error));
    } else if planned.value.Rewrite? && Matches(s.table, row) {
      var t := ProcessStep(rules, s, w, entropy).(workers := s.workers);
      RewriteKept(rules, s, w, entropy);
      Advance(rules, t, w, t.Of(w).tally.Record(planned.value.state));
    } else {
      var tally := if planned.value.Unchanged? then worker.tally.Record(planned.value.state)
                   else worker.tally.(conflicts := worker.tally.conflicts + 1);
      if k in s.table && s.table[k] == row.row {
        assert planned.value.Unchanged?;
        assert IsCurrent(rules, s.table[k]);
      }
      assert Settled(rules, s, k);
      Advance(rules, s, w, tally);
    }
  }

  /** A rewrite that lands leaves its row settled. */
  lemma RewriteKept<R(!new), V>(rules: RowRules<R, V>, s: State<R>, w: nat, entropy: Entropy)
    requires Lawful(rules) && Inv(rules, s)
    requires s.Of(w).Processing? && s.Of(w).done < |s.Of(w).batch|
    requires var row := s.Of(w).batch[s.Of(w).done];
             Matches(s.table, row) && rules.plan(row.row, entropy).Ok? && rules.plan(row.row, entropy).value.Rewrite?
    ensures var t := ProcessStep(rules, s, w, entropy).(workers := s.workers);
            Inv(rules, t) && Settled(rules, t, s.Of(w).batch[s.Of(w).done].cursor)
  {
    var worker := s.Of(w);
    var row := worker.batch[worker.done];
    var k := row.cursor;
    var t := ProcessStep(rules, s, w, entropy).(workers := s.workers);
    assert WorkerSound(rules, s, worker);
    assert PlanRefines(rules, row.row, entropy) && PlanConverges(rules, row.row, entropy);
    assert BytesDecide(rules, row.row, s.table[k].columns);
    assert s.table[k] == StoredRow(s.table[k].columns, row.row.ciphertext, row.row.indexes);
    assert Settled(rules, s, k) || Pending(s, worker.batch, worker.done, k);
    if s.table[k] == row.row {
      assert IsCurrent(rules, t.table[k]);
    } else {
      assert k in s.tainted;
    }
    WorkersKept(rules, s, t, k);
  }

  /** Every row before the one a worker is at is settled. */
  lemma FailureIsSound<R, V>(rules: RowRules<R, V>, s: State<R>, w: nat)
    requires Inv(rules, s)
    requires s.Of(w).Processing? && s.Of(w).done < |s.Of(w).batch|
    ensures forall k :: k < s.Of(w).batch[s.Of(w).done].cursor ==> Settled(rules, s, k)
  {
    var worker := s.Of(w);
    assert WorkerSound(rules, s, worker);
    forall k | k < worker.batch[worker.done].cursor
      ensures Settled(rules, s, k)
    {
      assert Settled(rules, s, k) || Pending(s, worker.batch, worker.done, k);
    }
  }

  /** Once its row is settled, a worker may move past it. */
  lemma Advance<R, V>(rules: RowRules<R, V>, s: State<R>, w: nat, tally: Tally)
    requires Inv(rules, s)
    requires s.Of(w).Processing? && s.Of(w).done < |s.Of(w).batch|
    requires Settled(rules, s, s.Of(w).batch[s.Of(w).done].cursor)
    ensures Inv(rules, s.With(w, s.Of(w).(done := s.Of(w).done + 1, tally := tally)))
  {
    var worker := s.Of(w);
    assert WorkerSound(rules, s, worker);
    var next := worker.(done := worker.done + 1, tally := tally);
    forall k | !After(Some(LastCursor(worker.batch)), k)
      ensures Settled(rules, s, k) || Pending(s, worker.batch, worker.done + 1, k)
    {
      assert Settled(rules, s, k) || Pending(s, worker.batch, worker.done, k);
    }
    WithKept(rules, s, w, next);
  }

  lemma StepKept<R(!new), V>(rules: RowRules<R, V>, limit: nat, s: State<R>, event: Event<R>)
    requires Lawful(rules) && limit > 0 && Inv(rules, s)
    ensures Inv(rules, Step(rules, limit, s, event))
  {
    match event
    case Start(w) =>
      if s.Of(w).Down? { WithKept(rules, s, w, Ready(s.checkpoint, NO_ROWS, 0)); }
    case Load(w) =>
      if s.Of(w).Ready? { LoadKept(rules, limit, s, w); }
    case Process(w, entropy) =>
      if s.Of(w).Processing? && s.Of(w).done < |s.Of(w).batch| { ProcessKept(rules, s, w, entropy); }
    case Save(w) =>
      if s.Of(w).Processing? && s.Of(w).done == |s.Of(w).batch| > 0 { SaveKept(rules, s, w); }
    case Crash(w) => WithKept(rules, s, w, Down);
    case Write(k, row) => ForeignKept(rules, s, k, s.table[k := row]);
    case Delete(k) => ForeignKept(rules, s, k, s.table - {k});
  }

  // ----- Safety over whole runs -----

  /** The invariant holds after any interleaving of any number of workers, crashes and
      restarts at any point, and any other writers. */
  lemma {:induction false} InvAlways<R(!new), V>(
    rules: RowRules<R, V>, limit: nat, s: State<R>, events: seq<Event<R>>)
    requires Lawful(rules) && limit > 0 && Inv(rules, s)
    ensures Inv(rules, Execute(rules, limit, s, events))
    decreases |events|
  {
    if events != [] {
      InvAlways(rules, limit, s, events[..|events| - 1]);
      StepKept(rules, limit, Execute(rules, limit, s, events[..|events| - 1]), events[|events| - 1]);
    }
  }

  // ----- Where a run may start -----

  /** Every row up to the checkpoint is current. */
  ghost predicate SweptTo<R, V>(rules: RowRules<R, V>, table: Table<R>, checkpoint: Option<int>) {
    forall k :: k in table && !After(checkpoint, k) ==> IsCurrent(rules, table[k])
  }

  /** The invariant holds of a table and the checkpoint left by earlier runs exactly when
      the checkpoint is true of the table; without a checkpoint it always is. */
  lemma StartedInv<R, V>(rules: RowRules<R, V>, table: Table<R>, checkpoint: Option<int>)
    ensures Inv(rules, Started(table, checkpoint)) <==> SweptTo(rules, table, checkpoint)
    ensures checkpoint == None ==> SweptTo(rules, table, checkpoint)
  {
    var s := Started(table, checkpoint);
    forall k | !After(checkpoint, k)
      ensures Settled(rules, s, k) || Pending(s, [], 0, k) <==> (k in table ==> IsCurrent(rules, table[k]))
    {
    }
  }
}
