/** What a worker's own memory tells its operator: the tallies account for every row
    loaded, and a failure names a row next to the durable checkpoint. */
module SweepReports {
  import opened Envelopes
  import opened SweepProtocol
  import opened SweepSafety
  import opened SweepTheorems
  import opened Wrappers

  // ----- Conservation of rows -----

  /** Every loaded row was counted once, or is still to be processed. A run counts no
      malformed rows. */
  ghost predicate Accounted<R>(worker: Worker<R>) {
    match worker
    case Down => true
    case Ready(_, tally, loaded) => tally.Total() == loaded && tally.malformed == 0
    case Processing(_, batch, done, tally, loaded) =>
      done <= |batch| && tally.Total() + (|batch| - done) == loaded && tally.malformed == 0
    case Finished(tally, loaded) => tally.Total() == loaded && tally.malformed == 0
    case Failed(_, _, _, _) => true
  }

  /** Rows loaded are conserved over every interleaving, from any start. */
  lemma {:induction false} EveryRowIsCounted<R, V>(
    rules: RowRules<R, V>, limit: nat, start: State<R>, events: seq<Event<R>>, w: nat)
    requires Accounted(start.Of(w))
    ensures Accounted(Execute(rules, limit, start, events).Of(w))
    decreases |events|
  {
    if events != [] {
      var s := Execute(rules, limit, start, events[..|events| - 1]);
      EveryRowIsCounted(rules, limit, start, events[..|events| - 1], w);
      StepCounts(rules, limit, s, events[|events| - 1], w);
    }
  }

  lemma StepCounts<R, V>(rules: RowRules<R, V>, limit: nat, s: State<R>, event: Event<R>, w: nat)
    requires Accounted(s.Of(w))
    ensures Accounted(Step(rules, limit, s, event).Of(w))
  {
    if IsForeign(event) || event.worker != w {
      assert Step(rules, limit, s, event).Of(w) == s.Of(w);
    } else if event.Process? {
      ProcessCounts(rules, limit, s, event.worker, event.entropy);
    }
  }

  lemma ProcessCounts<R, V>(rules: RowRules<R, V>, limit: nat, s: State<R>, w: nat, entropy: Entropy)
    requires Accounted(s.Of(w))
    ensures Accounted(Step(rules, limit, s, Process(w, entropy)).Of(w))
  {
    if s.Of(w).Processing? && s.Of(w).done < |s.Of(w).batch| {
      var planned := rules.plan(s.Of(w).batch[s.Of(w).done].row, entropy);
      if planned.Ok? {
        var tally := s.Of(w).tally;
        assert tally.Record(planned.value.state).Total() == tally.Total() + 1;
      }
    }
  }

  /** The successful updates of a worker since it last started. */
  function UpdatesSince<R, V>(
    rules: RowRules<R, V>, limit: nat, start: State<R>, events: seq<Event<R>>, w: nat): nat
    decreases |events|
  {
    if events == [] then 0 else
    var before, event := events[..|events| - 1], events[|events| - 1];
    var s := Execute(rules, limit, start, before);
    if event == Start(w) && s.Of(w).Down? then 0
    else
      UpdatesSince(rules, limit, start, before, w)
      + if event.Process? && event.worker == w && Step(rules, limit, s, event).updated != s.updated then 1 else 0
  }

  ghost predicate Reports<R>(worker: Worker<R>, updates: nat) {
    match worker
    case Ready(_, tally, _) => tally.stale + tally.legacy == updates
    case Processing(_, _, _, tally, _) => tally.stale + tally.legacy == updates
    case Finished(tally, _) => tally.stale + tally.legacy == updates
    case _ => true
  }

  /** A worker reports as stale or legacy exactly as many rows as it has itself updated
      since it started, whoever else is at work: no row is counted before its update, nor
      for one that was lost. */
  lemma {:induction false} UpdatesAreReported<R(!new), V>(
    rules: RowRules<R, V>, limit: nat, start: State<R>, events: seq<Event<R>>, w: nat)
    requires Lawful(rules) && start.Of(w).Down?
    ensures Reports(Execute(rules, limit, start, events).Of(w), UpdatesSince(rules, limit, start, events, w))
    decreases |events|
  {
    if events != [] {
      var before, event := events[..|events| - 1], events[|events| - 1];
      UpdatesAreReported(rules, limit, start, before, w);
      var s := Execute(rules, limit, start, before);
      StepReports(rules, limit, s, event, w, UpdatesSince(rules, limit, start, before, w));
    }
  }

  lemma StepReports<R(!new), V>(
    rules: RowRules<R, V>, limit: nat, s: State<R>, event: Event<R>, w: nat, updates: nat)
    requires Lawful(rules) && Reports(s.Of(w), updates)
    ensures var t := Step(rules, limit, s, event);
            var updated := event.Process? && event.worker == w && t.updated != s.updated;
            Reports(t.Of(w), if event == Start(w) && s.Of(w).Down? then 0 else updates + if updated then 1 else 0)
  {
    if IsForeign(event) || event.worker != w {
      assert Step(rules, limit, s, event).Of(w) == s.Of(w);
    } else if event.Process? && s.Of(w).Processing? && s.Of(w).done < |s.Of(w).batch| {
      var row := s.Of(w).batch[s.Of(w).done];
      assert PlanRefines(rules, row.row, event.entropy);
      assert s.updated + [row.cursor] != s.updated;
    }
  }

  // ----- Where a failure is -----

  /** A batch holds at most `limit` rows after the cursor it was loaded from, and a failed
      worker's planner refused the row it stopped at. */
  ghost predicate Localized<R, V>(rules: RowRules<R, V>, limit: nat, worker: Worker<R>) {
    match worker
    case Processing(after, batch, _, _, _) => BatchAfter(limit, after, batch)
    case Failed(after, batch, done, error) =>
      && BatchAfter(limit, after, batch)
      && done < |batch|
      && exists entropy :: rules.plan(batch[done].row, entropy) == Err(error)
    case _ => true
  }

  ghost predicate BatchAfter<R>(limit: nat, after: Option<int>, batch: seq<SweepRow<R>>) {
    && 0 < |batch| <= limit
    && Ascending(batch)
    && forall i :: 0 <= i < |batch| ==> After(after, batch[i].cursor)
  }

  lemma {:induction false} FailureIsRefused<R, V>(
    rules: RowRules<R, V>, limit: nat, start: State<R>, events: seq<Event<R>>, w: nat)
    requires Localized(rules, limit, start.Of(w))
    ensures Localized(rules, limit, Execute(rules, limit, start, events).Of(w))
    decreases |events|
  {
    if events != [] {
      var s := Execute(rules, limit, start, events[..|events| - 1]);
      FailureIsRefused(rules, limit, start, events[..|events| - 1], w);
      StepLocalized(rules, limit, s, events[|events| - 1], w);
    }
  }

  lemma StepLocalized<R, V>(rules: RowRules<R, V>, limit: nat, s: State<R>, event: Event<R>, w: nat)
    requires Localized(rules, limit, s.Of(w))
    ensures Localized(rules, limit, Step(rules, limit, s, event).Of(w))
  {
    if IsForeign(event) || event.worker != w {
      assert Step(rules, limit, s, event).Of(w) == s.Of(w);
    } else if event.Load? && s.Of(w).Ready? {
      LoadBatchExact(s.table, s.Of(w).cursor, limit);
    }
  }

  /** Whoever else is at work, when a worker has stopped its planner refused that row with
      that error, and every row before it is current. */
  lemma {:induction false} RowsBeforeFailureAreCurrent<R(!new), V>(
    rules: RowRules<R, V>, limit: nat, start: State<R>, events: seq<Event<R>>, w: nat)
    requires Lawful(rules) && limit > 0 && Inv(rules, start) && start.tainted == {} && start.Of(w).Down?
    requires TimelyWriters(rules, limit, start, events)
    requires Execute(rules, limit, start, events).Of(w).Failed?
    ensures var s := Execute(rules, limit, start, events);
            var failed := s.Of(w);
            && failed.done < |failed.batch| <= limit
            && var row := failed.batch[failed.done];
               && (exists entropy :: rules.plan(row.row, entropy) == Err(failed.error))
               && forall k :: k in s.table && k < row.cursor ==> IsCurrent(rules, s.table[k])
  {
    var s := Execute(rules, limit, start, events);
    FailureIsRefused(rules, limit, start, events, w);
    InvAlways(rules, limit, start, events);
    TimelyWritersLeaveNoTaint(rules, limit, start, events);
    assert WorkerSound(rules, s, s.Of(w));
    forall k | k in s.table && k < s.Of(w).batch[s.Of(w).done].cursor
      ensures IsCurrent(rules, s.table[k])
    {
      assert Settled(rules, s, k);
    }
  }

  // ----- One worker -----

  /** Every event is the worker's own or another writer's. */
  ghost predicate OneWorker<R>(events: seq<Event<R>>, w: nat) {
    forall i :: 0 <= i < |events| ==> IsForeign(events[i]) || events[i].worker == w
  }

  /** A sole worker's position is the durable checkpoint. */
  ghost predicate AtCheckpoint<R>(s: State<R>, worker: Worker<R>) {
    match worker
    case Ready(cursor, _, _) => cursor == s.checkpoint
    case Processing(after, _, _, _, _) => after == s.checkpoint
    case Failed(after, _, _, _) => after == s.checkpoint
    case _ => true
  }

  lemma {:induction false} SoleWorker<R, V>(
    rules: RowRules<R, V>, limit: nat, start: State<R>, events: seq<Event<R>>, w: nat)
    requires OneWorker(events, w) && AtCheckpoint(start, start.Of(w))
    ensures var s := Execute(rules, limit, start, events);
            AtCheckpoint(s, s.Of(w))
    decreases |events|
  {
    if events != [] {
      var before, event := events[..|events| - 1], events[|events| - 1];
      forall i | 0 <= i < |before|
        ensures IsForeign(before[i]) || before[i].worker == w
      {
        assert before[i] == events[i];
      }
      assert IsForeign(event) || event.worker == w;
      SoleWorker(rules, limit, start, before, w);
    }
  }

  /** The batch is the first rows of the table after the cursor it was loaded from. */
  ghost predicate FirstRows<R>(table: Table<R>, worker: Worker<R>) {
    match worker
    case Processing(after, batch, _, _, _) => IsFirst(table, after, batch)
    case Failed(after, batch, _, _) => IsFirst(table, after, batch)
    case _ => true
  }

  ghost predicate IsFirst<R>(table: Table<R>, after: Option<int>, batch: seq<SweepRow<R>>) {
    && batch != []
    && (forall i :: 0 <= i < |batch| ==> batch[i].cursor in table)
    && Gapless(table, after, batch, LastCursor(batch))
  }

  lemma {:induction false} QuietBatches<R, V>(
    rules: RowRules<R, V>, limit: nat, start: State<R>, events: seq<Event<R>>, w: nat)
    requires NoForeignEvents(events) && FirstRows(start.table, start.Of(w))
    ensures var s := Execute(rules, limit, start, events);
            s.table.Keys == start.table.Keys && FirstRows(s.table, s.Of(w))
    decreases |events|
  {
    if events != [] {
      var before, event := events[..|events| - 1], events[|events| - 1];
      forall i | 0 <= i < |before|
        ensures !IsForeign(before[i])
      {
        assert !IsForeign(events[i]);
      }
      assert !IsForeign(event);
      QuietBatches(rules, limit, start, before, w);
      QuietStep(rules, limit, Execute(rules, limit, start, before), event, w);
    }
  }

  lemma QuietStep<R, V>(rules: RowRules<R, V>, limit: nat, s: State<R>, event: Event<R>, w: nat)
    requires !IsForeign(event) && FirstRows(s.table, s.Of(w))
    ensures var t := Step(rules, limit, s, event);
            t.table.Keys == s.table.Keys && FirstRows(t.table, t.Of(w))
  {
    var t, worker := Step(rules, limit, s, event), s.Of(w);
    assert t.table.Keys == s.table.Keys;
    if event == Load(w) && worker.Ready? {
      LoadBatchExact(s.table, worker.cursor, limit);
    } else if worker.Processing? || worker.Failed? {
      SameKeysSameRows(s.table, t.table, worker.after, worker.batch);
    }
    if event.worker != w {
      assert t.Of(w) == worker;
    }
  }

  lemma SameKeysSameRows<R>(table: Table<R>, other: Table<R>, after: Option<int>, batch: seq<SweepRow<R>>)
    requires table.Keys == other.Keys && IsFirst(table, after, batch)
    ensures IsFirst(other, after, batch)
  {
    forall k | k in other && After(after, k) && k <= LastCursor(batch)
      ensures Has(batch, k)
    {
      assert k in table.Keys;
    }
  }

  /** When a sole worker, resumed from any true checkpoint, has stopped, the row its
      planner refused is one of the at most `limit` rows it loaded after the durable
      checkpoint, and every row before it is current. If no one else wrote, the rows
      between are exactly those before it in its batch. */
  lemma {:induction false} FailureIsNextToCheckpoint<R(!new), V>(
    rules: RowRules<R, V>, limit: nat, table: Table<R>, checkpoint: Option<int>, events: seq<Event<R>>, w: nat)
    requires Lawful(rules) && limit > 0 && SweptTo(rules, table, checkpoint) && OneWorker(events, w)
    requires TimelyWriters(rules, limit, Started(table, checkpoint), events)
    requires Execute(rules, limit, Started(table, checkpoint), events).Of(w).Failed?
    ensures var s := Execute(rules, limit, Started(table, checkpoint), events);
            var failed := s.Of(w);
            && failed.done < |failed.batch| <= limit
            && var row := failed.batch[failed.done];
               && After(s.checkpoint, row.cursor)
               && (exists entropy :: rules.plan(row.row, entropy) == Err(failed.error))
               && (forall k :: k in s.table && k < row.cursor ==> IsCurrent(rules, s.table[k]))
               && (NoForeignEvents(events) ==>
                    && row.cursor in s.table
                    && forall k :: k in s.table && After(s.checkpoint, k) && k < row.cursor ==>
                         Has(failed.batch[..failed.done], k))
  {
    var start := Started(table, checkpoint);
    var s := Execute(rules, limit, start, events);
    StartedInv(rules, table, checkpoint);
    RowsBeforeFailureAreCurrent(rules, limit, start, events, w);
    FailureIsRefused(rules, limit, start, events, w);
    SoleWorker(rules, limit, start, events, w);
    if NoForeignEvents(events) {
      QuietBatches(rules, limit, start, events, w);
      RowsBetween(s.table, s.checkpoint, s.Of(w).batch, s.Of(w).done);
    }
  }

  /** The row that stopped a sole worker may then be put right, or given any other bytes, or
      deleted: the sweep has yet to reach it, so the writer is a timely one. */
  lemma {:induction false} RepairIsTimely<R(!new), V>(
    rules: RowRules<R, V>, limit: nat, table: Table<R>, checkpoint: Option<int>, events: seq<Event<R>>, w: nat)
    requires Lawful(rules) && limit > 0 && SweptTo(rules, table, checkpoint) && OneWorker(events, w)
    requires TimelyWriters(rules, limit, Started(table, checkpoint), events)
    requires Execute(rules, limit, Started(table, checkpoint), events).Of(w).Failed?
    ensures var s := Execute(rules, limit, Started(table, checkpoint), events);
            var failed := s.Of(w);
            failed.done < |failed.batch| && Unswept(s, failed.batch[failed.done].cursor)
  {
    FailureIsNextToCheckpoint(rules, limit, table, checkpoint, events, w);
    NoOtherWorkers(rules, limit, Started(table, checkpoint), events, w);
  }

  lemma {:induction false} NoOtherWorkers<R, V>(
    rules: RowRules<R, V>, limit: nat, start: State<R>, events: seq<Event<R>>, w: nat)
    requires OneWorker(events, w) && forall v :: v in start.workers ==> v == w
    ensures forall v :: v in Execute(rules, limit, start, events).workers ==> v == w
    decreases |events|
  {
    if events != [] {
      var before, event := events[..|events| - 1], events[|events| - 1];
      forall i | 0 <= i < |before|
        ensures IsForeign(before[i]) || before[i].worker == w
      {
        assert before[i] == events[i];
      }
      NoOtherWorkers(rules, limit, start, before, w);
      assert IsForeign(event) || event.worker == w;
    }
  }

  lemma RowsBetween<R>(table: Table<R>, after: Option<int>, batch: seq<SweepRow<R>>, done: nat)
    requires IsFirst(table, after, batch) && Ascending(batch) && done < |batch|
    ensures forall k :: k in table && After(after, k) && k < batch[done].cursor ==> Has(batch[..done], k)
  {
    forall k | k in table && After(after, k) && k < batch[done].cursor
      ensures Has(batch[..done], k)
    {
      assert Has(batch, k);
      var i :| 0 <= i < |batch| && batch[i].cursor == k;
      assert batch[..done][i].cursor == k;
    }
  }
}
