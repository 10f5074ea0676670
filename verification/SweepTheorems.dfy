/** Theorems about whole runs of the sweep, for every interleaving of any number of
    workers, crashes, restarts, and other writers. */
module SweepTheorems {
  import opened Bytes
  import opened Envelopes
  import opened Rows
  import opened SweepProtocol
  import opened SweepSafety
  import opened Wrappers

  // ----- The premises on other writers -----

  /** Every other writer writes rows that are already current. */
  ghost predicate CurrentWriters<R, V>(rules: RowRules<R, V>, events: seq<Event<R>>) {
    forall i :: 0 <= i < |events| && events[i].Write? ==> IsCurrent(rules, events[i].row)
  }

  /** Every other writer writes rows that are current, or that the sweep is yet to reach
      when they are written. */
  ghost predicate TimelyWriters<R, V>(rules: RowRules<R, V>, limit: nat, start: State<R>, events: seq<Event<R>>) {
    forall i :: 0 <= i < |events| && events[i].Write? ==>
      IsCurrent(rules, events[i].row) || Unswept(Execute(rules, limit, start, events[..i]), events[i].cursor)
  }

  ghost predicate NoForeignEvents<R>(events: seq<Event<R>>) {
    forall i :: 0 <= i < |events| ==> !IsForeign(events[i])
  }

  lemma {:induction false} TimelyWritersLeaveNoTaint<R, V>(
    rules: RowRules<R, V>, limit: nat, start: State<R>, events: seq<Event<R>>)
    requires start.tainted == {} && TimelyWriters(rules, limit, start, events)
    ensures Execute(rules, limit, start, events).tainted == {}
    decreases |events|
  {
    if events != [] {
      var before, event := events[..|events| - 1], events[|events| - 1];
      forall i | 0 <= i < |before| && before[i].Write?
        ensures IsCurrent(rules, before[i].row) || Unswept(Execute(rules, limit, start, before[..i]), before[i].cursor)
      {
        assert events[i].Write? && before[..i] == events[..i];
      }
      TimelyWritersLeaveNoTaint(rules, limit, start, before);
      assert event.Write? ==>
          IsCurrent(rules, event.row) || Unswept(Execute(rules, limit, start, before), event.cursor);
    }
  }

  // ----- Safety -----

  /** In every reachable state, a row at or below the durable checkpoint is current,
      unless another writer, behind the sweep, last left it otherwise. No premise on the
      writers, and any state of which the invariant holds may be the first. */
  lemma {:induction false} CheckpointIsSwept<R(!new), V>(
    rules: RowRules<R, V>, limit: nat, start: State<R>, events: seq<Event<R>>, k: int)
    requires Lawful(rules) && limit > 0 && Inv(rules, start)
    ensures var s := Execute(rules, limit, start, events);
            k in s.table && s.checkpoint.Some? && k <= s.checkpoint.value ==>
              IsCurrent(rules, s.table[k]) || k in s.tainted
  {
    InvAlways(rules, limit, start, events);
    var s := Execute(rules, limit, start, events);
    if k in s.table && s.checkpoint.Some? && k <= s.checkpoint.value {
      assert Settled(rules, s, k) || Pending(s, [], 0, k);
    }
  }

  /** Among timely writers the checkpoint stays true of the table, so whatever became of
      the workers, a later run may start from it. */
  lemma {:induction false} CheckpointStaysTrue<R(!new), V>(
    rules: RowRules<R, V>, limit: nat, start: State<R>, events: seq<Event<R>>)
    requires Lawful(rules) && limit > 0 && Inv(rules, start) && start.tainted == {}
    requires TimelyWriters(rules, limit, start, events)
    ensures var s := Execute(rules, limit, start, events);
            SweptTo(rules, s.table, s.checkpoint)
  {
    var s := Execute(rules, limit, start, events);
    TimelyWritersLeaveNoTaint(rules, limit, start, events);
    forall k | k in s.table && !After(s.checkpoint, k)
      ensures IsCurrent(rules, s.table[k])
    {
      CheckpointIsSwept(rules, limit, start, events, k);
    }
  }

  /** Once any worker has finished, the rows that are not current are exactly those
      another writer last left so behind the sweep. */
  lemma {:induction false} FinishedExactly<R(!new), V>(
    rules: RowRules<R, V>, limit: nat, start: State<R>, events: seq<Event<R>>, w: nat, k: int)
    requires Lawful(rules) && limit > 0 && Inv(rules, start)
    requires Execute(rules, limit, start, events).Of(w).Finished?
    ensures var s := Execute(rules, limit, start, events);
            k in s.table ==> (!IsCurrent(rules, s.table[k]) <==> k in s.tainted)
  {
    InvAlways(rules, limit, start, events);
    var s := Execute(rules, limit, start, events);
    assert WorkerSound(rules, s, s.Of(w));
    assert Settled(rules, s, k);
  }

  ghost predicate Converged<R, V>(rules: RowRules<R, V>, table: Table<R>) {
    forall k :: k in table ==> IsCurrent(rules, table[k])
  }

  /** Among timely writers a finished worker means a converged table. */
  lemma {:induction false} FinishedConverges<R(!new), V>(
    rules: RowRules<R, V>, limit: nat, start: State<R>, events: seq<Event<R>>, w: nat)
    requires Lawful(rules) && limit > 0 && Inv(rules, start) && start.tainted == {}
    requires TimelyWriters(rules, limit, start, events)
    requires Execute(rules, limit, start, events).Of(w).Finished?
    ensures Converged(rules, Execute(rules, limit, start, events).table)
  {
    var s := Execute(rules, limit, start, events);
    TimelyWritersLeaveNoTaint(rules, limit, start, events);
    forall k | k in s.table
      ensures IsCurrent(rules, s.table[k])
    {
      FinishedExactly(rules, limit, start, events, w, k);
    }
  }

  /** Timely writers up to the moment a worker finished, and writers of current rows from
      then on: the table is converged then and ever after. */
  lemma {:induction false} ConvergedEverAfter<R(!new), V>(
    rules: RowRules<R, V>, limit: nat, start: State<R>, events: seq<Event<R>>, m: nat, w: nat)
    requires Lawful(rules) && limit > 0 && Inv(rules, start) && start.tainted == {} && m <= |events|
    requires TimelyWriters(rules, limit, start, events[..m]) && CurrentWriters(rules, events[m..])
    requires Execute(rules, limit, start, events[..m]).Of(w).Finished?
    ensures Converged(rules, Execute(rules, limit, start, events).table)
  {
    FinishedConverges(rules, limit, start, events[..m], w);
    ConvergedStays(rules, limit, Execute(rules, limit, start, events[..m]), events[m..]);
    ExecuteInParts(rules, limit, start, events[..m], events[m..]);
    assert events[..m] + events[m..] == events;
  }

  lemma {:induction false} ConvergedStays<R(!new), V>(
    rules: RowRules<R, V>, limit: nat, s: State<R>, events: seq<Event<R>>)
    requires Lawful(rules) && CurrentWriters(rules, events)
    requires Converged(rules, s.table)
    ensures Converged(rules, Execute(rules, limit, s, events).table)
    ensures NoForeignEvents(events) ==>
              && Execute(rules, limit, s, events).table == s.table
              && Execute(rules, limit, s, events).updated == s.updated
    decreases |events|
  {
    if events != [] {
      var before, event := events[..|events| - 1], events[|events| - 1];
      forall i | 0 <= i < |before| && before[i].Write?
        ensures IsCurrent(rules, before[i].row)
      {
        assert events[i].Write?;
      }
      ConvergedStays(rules, limit, s, before);
      if NoForeignEvents(events) {
        forall i | 0 <= i < |before|
          ensures !IsForeign(before[i])
        {
          assert !IsForeign(events[i]);
        }
        assert !IsForeign(event);
      }
      assert event.Write? ==> IsCurrent(rules, event.row);
      ConvergedStep(rules, limit, Execute(rules, limit, s, before), event);
    }
  }

  /** On a converged table no compare-and-swap matches: its bytes would have to be
      both current and in need of a rewrite. */
  lemma ConvergedStep<R(!new), V>(rules: RowRules<R, V>, limit: nat, s: State<R>, event: Event<R>)
    requires Lawful(rules) && Converged(rules, s.table)
    requires event.Write? ==> IsCurrent(rules, event.row)
    ensures Converged(rules, Step(rules, limit, s, event).table)
    ensures !IsForeign(event) ==>
              && Step(rules, limit, s, event).table == s.table
              && Step(rules, limit, s, event).updated == s.updated
  {
    if event.Process? && s.Of(event.worker).Processing? && s.Of(event.worker).done < |s.Of(event.worker).batch| {
      var row := s.Of(event.worker).batch[s.Of(event.worker).done];
      assert PlanRefines(rules, row.row, event.entropy);
      if Matches(s.table, row) {
        assert BytesDecide(rules, row.row, s.table[row.cursor].columns);
        assert s.table[row.cursor] == StoredRow(s.table[row.cursor].columns, row.row.ciphertext, row.row.indexes);
        assert IsCurrent(rules, s.table[row.cursor]);
      }
    }
  }

  /** Replay is idempotent: on a converged table, workers started from any checkpoint,
      or resumed from any memory, change no byte and make no update. */
  lemma {:induction false} ReplayChangesNothing<R(!new), V>(
    rules: RowRules<R, V>, limit: nat, s: State<R>, events: seq<Event<R>>)
    requires Lawful(rules) && Converged(rules, s.table) && NoForeignEvents(events)
    ensures Execute(rules, limit, s, events).table == s.table
    ensures Execute(rules, limit, s, events).updated == s.updated
  {
    assert forall i :: 0 <= i < |events| ==> !IsForeign(events[i]);
    ConvergedStays(rules, limit, s, events);
  }

  /** The premise on writers is needed: a writer that stores a row that is not current
      behind a finished sweep leaves it so, and the sweep does not revisit it. */
  lemma {:induction false} StaleWriterEscapes<R, V>(rules: RowRules<R, V>, limit: nat, cursor: int, row: StoredRow<R>)
    requires !IsCurrent(rules, row)
    ensures var events: seq<Event<R>> := [Start(0), Load(0)] + [Write(cursor, row)];
            var s := Execute(rules, limit, Initial(map[]), events);
            s.Of(0).Finished? && s.table == map[cursor := row] && !Converged(rules, s.table)
  {
    var loaded: seq<Event<R>> := [Start(0), Load(0)];
    EmptyTableFinishes(rules, limit);
    ExecuteOne(rules, limit, Initial(map[]), loaded, Write(cursor, row));
    WriteEscapes(rules, limit, Execute(rules, limit, Initial(map[]), loaded), cursor, row);
  }

  lemma {:induction false} EmptyTableFinishes<R, V>(rules: RowRules<R, V>, limit: nat)
    ensures var events: seq<Event<R>> := [Start(0), Load(0)];
            var s := Execute(rules, limit, Initial(map[]), events);
            s.Of(0).Finished? && s.table == map[]
  {
    var none: seq<Event<R>>, started: seq<Event<R>> := [], [Start(0)];
    assert none + [Start(0)] == started && started + [Load(0)] == [Start(0), Load(0)];
    ExecuteOne(rules, limit, Initial(map[]), none, Start(0));
    ExecuteOne(rules, limit, Initial(map[]), started, Load(0));
    NothingToLoad(rules, limit, Execute(rules, limit, Initial(map[]), started));
  }

  lemma NothingToLoad<R, V>(rules: RowRules<R, V>, limit: nat, s: State<R>)
    requires s.table == map[] && s.Of(0).Ready?
    ensures Step(rules, limit, s, Load(0)).Of(0).Finished? && Step(rules, limit, s, Load(0)).table == map[]
  {
    assert NextCursor(s.table, s.Of(0).cursor) == None;
  }

  lemma WriteEscapes<R, V>(rules: RowRules<R, V>, limit: nat, s: State<R>, cursor: int, row: StoredRow<R>)
    requires s.table == map[] && !IsCurrent(rules, row)
    ensures var t := Step(rules, limit, s, Write(cursor, row));
            t.table == map[cursor := row] && t.workers == s.workers && !Converged(rules, t.table)
  {
    var t := Step(rules, limit, s, Write(cursor, row));
    assert cursor in t.table && t.table[cursor] == row;
  }

  // ----- Rows under another record ID -----

  /** The plan for `row`, landing on the same bytes in a row with columns `at`, leaves that
      row reading as it did. */
  ghost predicate LandsWell<R, V>(rules: RowRules<R, V>, row: StoredRow<R>, entropy: Entropy, at: R) {
    var planned := rules.plan(row, entropy);
    var found := StoredRow(at, row.ciphertext, row.indexes);
    planned.Ok? && planned.value.Rewrite? ==> rules.read(Written(found, planned.value.write)) == rules.read(found)
  }

  /** The update an event makes, if it makes one, lands well. */
  ghost predicate UpdateLandsWell<R, V>(rules: RowRules<R, V>, s: State<R>, event: Event<R>) {
    event.Process? && s.Of(event.worker).Processing? && s.Of(event.worker).done < |s.Of(event.worker).batch| ==>
      var row := s.Of(event.worker).batch[s.Of(event.worker).done];
      Matches(s.table, row) ==> LandsWell(rules, row.row, event.entropy, s.table[row.cursor].columns)
  }

  ghost predicate UpdatesLandWell<R, V>(rules: RowRules<R, V>, limit: nat, start: State<R>, events: seq<Event<R>>) {
    forall i :: 0 <= i < |events| ==> UpdateLandsWell(rules, Execute(rules, limit, start, events[..i]), events[i])
  }

  ghost predicate Rewrites<R, V>(rules: RowRules<R, V>, row: StoredRow<R>, entropy: Entropy) {
    rules.plan(row, entropy).Ok? && rules.plan(row, entropy).value.Rewrite?
  }

  /** Bytes that are rewritten under no record ID. */
  ghost predicate Inert<R(!new), V>(rules: RowRules<R, V>, ciphertext: Bytes, indexes: seq<Bytes>) {
    forall loaded, entropy :: !Rewrites(rules, StoredRow(loaded, ciphertext, indexes), entropy)
  }

  /** The bytes of a current row, and so all bytes a sweep writes, are inert. */
  lemma CurrentIsInert<R(!new), V>(rules: RowRules<R, V>, row: StoredRow<R>)
    requires Lawful(rules) && IsCurrent(rules, row)
    ensures Inert(rules, row.ciphertext, row.indexes)
  {
    forall loaded, entropy
      ensures !Rewrites(rules, StoredRow(loaded, row.ciphertext, row.indexes), entropy)
    {
      var found := StoredRow(loaded, row.ciphertext, row.indexes);
      assert PlanRefines(rules, found, entropy) && BytesDecide(rules, found, row.columns);
    }
  }

  ghost function Unwritten<R(!new), V>(rules: RowRules<R, V>): (Bytes, seq<Bytes>) -> bool {
    (ciphertext, indexes) => Inert(rules, ciphertext, indexes)
  }

  /** A row has the record ID that `anchor` gives its cursor, or bytes that are free to be
      under any. */
  ghost predicate InPlace<R>(row: StoredRow<R>, k: int, anchor: map<int, R>, free: (Bytes, seq<Bytes>) -> bool) {
    (k in anchor && row.columns == anchor[k]) || free(row.ciphertext, row.indexes)
  }

  /** Every row, stored or loaded, is in place. */
  ghost predicate Anchored<R>(s: State<R>, anchor: map<int, R>, free: (Bytes, seq<Bytes>) -> bool) {
    && (forall k :: k in s.table ==> InPlace(s.table[k], k, anchor, free))
    && (forall w :: WorkerAnchored(s.Of(w), anchor, free))
  }

  ghost predicate WorkerAnchored<R>(worker: Worker<R>, anchor: map<int, R>, free: (Bytes, seq<Bytes>) -> bool) {
    worker.Processing? ==>
      forall i :: 0 <= i < |worker.batch| ==> InPlace(worker.batch[i].row, worker.batch[i].cursor, anchor, free)
  }

  ghost predicate WritesInPlace<R>(event: Event<R>, anchor: map<int, R>, free: (Bytes, seq<Bytes>) -> bool) {
    event.Write? ==> InPlace(event.row, event.cursor, anchor, free)
  }

  ghost predicate RewritesAreFree<R(!new), V>(rules: RowRules<R, V>, free: (Bytes, seq<Bytes>) -> bool) {
    forall row, entropy :: RewriteIsFree(rules, free, row, entropy)
  }

  ghost predicate RewriteIsFree<R, V>(
    rules: RowRules<R, V>, free: (Bytes, seq<Bytes>) -> bool, row: StoredRow<R>, entropy: Entropy)
  {
    Rewrites(rules, row, entropy) ==>
      free(rules.plan(row, entropy).value.write.ciphertext, rules.plan(row, entropy).value.write.indexes)
  }

  lemma LawfulRewritesAreFree<R(!new), V>(rules: RowRules<R, V>)
    requires Lawful(rules)
    ensures RewritesAreFree(rules, Unwritten(rules))
  {
    forall row, entropy
      ensures RewriteIsFree(rules, Unwritten(rules), row, entropy)
    {
      assert PlanConverges(rules, row, entropy);
      if Rewrites(rules, row, entropy) {
        CurrentIsInert(rules, Written(row, rules.plan(row, entropy).value.write));
      }
    }
  }

  lemma AnchoredStep<R(!new), V>(
    rules: RowRules<R, V>, limit: nat, s: State<R>, event: Event<R>, anchor: map<int, R>,
    free: (Bytes, seq<Bytes>) -> bool)
    requires RewritesAreFree(rules, free)
    requires Anchored(s, anchor, free) && WritesInPlace(event, anchor, free)
    ensures Anchored(Step(rules, limit, s, event), anchor, free)
  {
    var t := Step(rules, limit, s, event);
    if event.Process? {
      ProcessAnchored(rules, limit, s, event.worker, event.entropy, anchor, free);
    }
    forall v
      ensures WorkerAnchored(t.Of(v), anchor, free)
    {
      MemoryAnchored(rules, limit, s, event, v, anchor, free);
    }
  }

  lemma ProcessAnchored<R(!new), V>(
    rules: RowRules<R, V>, limit: nat, s: State<R>, w: nat, entropy: Entropy, anchor: map<int, R>,
    free: (Bytes, seq<Bytes>) -> bool)
    requires RewritesAreFree(rules, free) && Anchored(s, anchor, free)
    ensures var t := Step(rules, limit, s, Process(w, entropy));
            forall k :: k in t.table ==> InPlace(t.table[k], k, anchor, free)
  {
    if s.Of(w).Processing? && s.Of(w).done < |s.Of(w).batch| {
      assert RewriteIsFree(rules, free, s.Of(w).batch[s.Of(w).done].row, entropy);
    }
  }

  lemma MemoryAnchored<R, V>(
    rules: RowRules<R, V>, limit: nat, s: State<R>, event: Event<R>, v: nat, anchor: map<int, R>,
    free: (Bytes, seq<Bytes>) -> bool)
    requires Anchored(s, anchor, free)
    ensures WorkerAnchored(Step(rules, limit, s, event).Of(v), anchor, free)
  {
    assert WorkerAnchored(s.Of(v), anchor, free);
    if event == Load(v) {
      if s.Of(v).Ready? {
        LoadBatchExact(s.table, s.Of(v).cursor, limit);
      }
    } else {
      assert Step(rules, limit, s, event).Of(v).Processing? ==>
          s.Of(v).Processing? && Step(rules, limit, s, event).Of(v).batch == s.Of(v).batch;
    }
  }

  lemma {:induction false} AnchoredAlways<R(!new), V>(
    rules: RowRules<R, V>, limit: nat, s: State<R>, events: seq<Event<R>>, anchor: map<int, R>,
    free: (Bytes, seq<Bytes>) -> bool)
    requires RewritesAreFree(rules, free) && Anchored(s, anchor, free)
    requires forall i :: 0 <= i < |events| ==> WritesInPlace(events[i], anchor, free)
    ensures Anchored(Execute(rules, limit, s, events), anchor, free)
    decreases |events|
  {
    if events != [] {
      var before := events[..|events| - 1];
      forall i | 0 <= i < |before|
        ensures WritesInPlace(before[i], anchor, free)
      {
        assert WritesInPlace(events[i], anchor, free);
      }
      AnchoredAlways(rules, limit, s, before, anchor, free);
      AnchoredStep(rules, limit, Execute(rules, limit, s, before), events[|events| - 1], anchor, free);
    }
  }

  // ----- No value is lost -----

  /** What a reader sees of each row. */
  function Values<R, V>(rules: RowRules<R, V>, table: Table<R>): map<int, Result<V>> {
    map k | k in table :: rules.read(table[k])
  }

  /** The other writers' effect on what readers see, as if no sweep ran. */
  function ForeignOnly<R, V>(
    rules: RowRules<R, V>, values: map<int, Result<V>>, events: seq<Event<R>>): map<int, Result<V>>
  {
    if events == [] then values
    else Changed(rules, ForeignOnly(rules, values, events[..|events| - 1]), events[|events| - 1])
  }

  /** What another writer's event changes of what readers see. */
  function Changed<R, V>(rules: RowRules<R, V>, values: map<int, Result<V>>, event: Event<R>): map<int, Result<V>> {
    match event
    case Write(k, row) => values[k := rules.read(row)]
    case Delete(k) => values - {k}
    case _ => values
  }

  /** The sweep is invisible to readers: over any run whose updates land well, a value is
      changed only by another writer, whatever it writes. */
  lemma {:induction false} NothingIsLost<R(!new), V>(
    rules: RowRules<R, V>, limit: nat, s: State<R>, events: seq<Event<R>>)
    requires UpdatesLandWell(rules, limit, s, events)
    ensures Values(rules, Execute(rules, limit, s, events).table)
         == ForeignOnly(rules, Values(rules, s.table), events)
    decreases |events|
  {
    if events != [] {
      var before, event := events[..|events| - 1], events[|events| - 1];
      forall i | 0 <= i < |before|
        ensures UpdateLandsWell(rules, Execute(rules, limit, s, before[..i]), before[i])
      {
        assert before[..i] == events[..i] && before[i] == events[i];
      }
      NothingIsLost(rules, limit, s, before);
      assert UpdateLandsWell(rules, Execute(rules, limit, s, before), event);
      StepIsStutter(rules, limit, Execute(rules, limit, s, before), event);
    }
  }

  /** A step of the sweep is a stutter on what readers see exactly when its update, if it
      makes one, lands well. */
  lemma StepIsStutter<R, V>(rules: RowRules<R, V>, limit: nat, s: State<R>, event: Event<R>)
    ensures UpdateLandsWell(rules, s, event) <==>
              Values(rules, Step(rules, limit, s, event).table) == Changed(rules, Values(rules, s.table), event)
  {
    if event.Process? {
      ProcessIsStutter(rules, limit, s, event.worker, event.entropy);
    }
  }

  lemma ProcessIsStutter<R, V>(rules: RowRules<R, V>, limit: nat, s: State<R>, w: nat, entropy: Entropy)
    ensures UpdateLandsWell(rules, s, Process(w, entropy)) <==>
              Values(rules, Step(rules, limit, s, Process(w, entropy)).table) == Values(rules, s.table)
  {
    if s.Of(w).Processing? && s.Of(w).done < |s.Of(w).batch| {
      var row := s.Of(w).batch[s.Of(w).done];
      var t := Step(rules, limit, s, Process(w, entropy));
      if Matches(s.table, row) {
        var k := row.cursor;
        assert s.table[k] == StoredRow(s.table[k].columns, row.row.ciphertext, row.row.indexes);
        assert Values(rules, s.table)[k] == rules.read(s.table[k]);
        assert Values(rules, t.table)[k] == rules.read(t.table[k]);
      }
    }
  }

  /** An update to a row that kept its record ID lands well. */
  lemma KeptRowLandsWell<R(!new), V>(rules: RowRules<R, V>, row: StoredRow<R>, entropy: Entropy)
    requires Lawful(rules)
    ensures LandsWell(rules, row, entropy, row.columns)
  {
    assert PlanKeepsValue(rules, row, entropy);
    assert StoredRow(row.columns, row.ciphertext, row.indexes) == row;
  }

  /** Every update lands well if only current rows ever change their record IDs. */
  lemma {:induction false} InPlaceLandsWell<R(!new), V>(
    rules: RowRules<R, V>, limit: nat, s: State<R>, events: seq<Event<R>>, anchor: map<int, R>)
    requires Lawful(rules) && Anchored(s, anchor, Unwritten(rules))
    requires forall i :: 0 <= i < |events| ==> WritesInPlace(events[i], anchor, Unwritten(rules))
    ensures UpdatesLandWell(rules, limit, s, events)
  {
    LawfulRewritesAreFree(rules);
    forall i | 0 <= i < |events|
      ensures UpdateLandsWell(rules, Execute(rules, limit, s, events[..i]), events[i])
    {
      forall j | 0 <= j < i
        ensures WritesInPlace(events[..i][j], anchor, Unwritten(rules))
      {
        assert WritesInPlace(events[j], anchor, Unwritten(rules));
      }
      AnchoredAlways(rules, limit, s, events[..i], anchor, Unwritten(rules));
      AnchoredLandsWell(rules, Execute(rules, limit, s, events[..i]), events[i], anchor);
    }
  }

  /** Among writers of current rows every update lands well, wherever they move rows. */
  lemma CurrentWritersLandWell<R(!new), V>(
    rules: RowRules<R, V>, limit: nat, table: Table<R>, checkpoint: Option<int>, events: seq<Event<R>>)
    requires Lawful(rules) && CurrentWriters(rules, events)
    ensures UpdatesLandWell(rules, limit, Started(table, checkpoint), events)
  {
    var anchor := map k | k in table :: table[k].columns;
    forall i | 0 <= i < |events|
      ensures WritesInPlace(events[i], anchor, Unwritten(rules))
    {
      if events[i].Write? {
        CurrentIsInert(rules, events[i].row);
      }
    }
    InPlaceLandsWell(rules, limit, Started(table, checkpoint), events, anchor);
  }

  lemma AnchoredLandsWell<R(!new), V>(rules: RowRules<R, V>, s: State<R>, event: Event<R>, anchor: map<int, R>)
    requires Lawful(rules) && Anchored(s, anchor, Unwritten(rules))
    ensures UpdateLandsWell(rules, s, event)
  {
    if event.Process? && s.Of(event.worker).Processing? && s.Of(event.worker).done < |s.Of(event.worker).batch| {
      var row := s.Of(event.worker).batch[s.Of(event.worker).done];
      assert WorkerAnchored(s.Of(event.worker), anchor, Unwritten(rules));
      if Matches(s.table, row) {
        var k := row.cursor;
        KeptRowLandsWell(rules, row.row, event.entropy);
        assert InPlace(s.table[k], k, anchor, Unwritten(rules)) && InPlace(row.row, k, anchor, Unwritten(rules));
        assert row.row == StoredRow(row.row.columns, row.row.ciphertext, row.row.indexes);
        if Inert(rules, row.row.ciphertext, row.row.indexes) {
          assert !Rewrites(rules, StoredRow(row.row.columns, row.row.ciphertext, row.row.indexes), event.entropy);
        }
      }
    }
  }

  /** The other writers' events of a run, in order. */
  function ForeignEvents<R>(events: seq<Event<R>>): seq<Event<R>> {
    if events == [] then []
    else ForeignEvents(events[..|events| - 1])
         + if IsForeign(events[|events| - 1]) then [events[|events| - 1]] else []
  }

  lemma {:induction false} ForeignOnlyOfForeign<R, V>(
    rules: RowRules<R, V>, values: map<int, Result<V>>, events: seq<Event<R>>)
    ensures ForeignOnly(rules, values, events) == ForeignOnly(rules, values, ForeignEvents(events))
    decreases |events|
  {
    if events != [] {
      var before, event := events[..|events| - 1], events[|events| - 1];
      ForeignOnlyOfForeign(rules, values, before);
      ForeignOnlyMore(rules, values, ForeignEvents(before), event);
    }
  }

  lemma {:induction false} ForeignOnlyMore<R, V>(
    rules: RowRules<R, V>, values: map<int, Result<V>>, events: seq<Event<R>>, event: Event<R>)
    ensures ForeignOnly(rules, values, events + [event]) == Changed(rules, ForeignOnly(rules, values, events), event)
    ensures events + [] == events
  {
    assert (events + [event])[..|events|] == events;
  }

  /** Two runs that agree on the other writers' events alone end with the same values,
      wherever they start: an interrupted sweep, repaired and resumed, equals one never
      interrupted, and both equal no sweep at all. */
  lemma {:induction false} SameWritersSameValues<R(!new), V>(
    rules: RowRules<R, V>, s: State<R>, limit: nat, events: seq<Event<R>>,
    t: State<R>, otherLimit: nat, others: seq<Event<R>>)
    requires s.table == t.table
    requires UpdatesLandWell(rules, limit, s, events) && UpdatesLandWell(rules, otherLimit, t, others)
    requires ForeignEvents(events) == ForeignEvents(others)
    ensures Values(rules, Execute(rules, limit, s, events).table)
         == Values(rules, Execute(rules, otherLimit, t, others).table)
  {
    NothingIsLost(rules, limit, s, events);
    NothingIsLost(rules, otherLimit, t, others);
    ForeignOnlyOfForeign(rules, Values(rules, s.table), events);
    ForeignOnlyOfForeign(rules, Values(rules, s.table), others);
  }

  // ----- Properties of single rows -----

  /** A rewrite of a row for which `holds` leaves one for which it holds. */
  ghost predicate RewriteKeeps<R, V>(
    rules: RowRules<R, V>, holds: StoredRow<R> -> bool, row: StoredRow<R>, entropy: Entropy)
  {
    var planned := rules.plan(row, entropy);
    planned.Ok? && planned.value.Rewrite? && holds(row) ==> holds(Written(row, planned.value.write))
  }

  /** Whatever rewrites and other writers keep of each row holds of every row of every
      reachable table. Only a row that some plan rewrites must keep its record ID. */
  lemma {:induction false} RowsAlways<R(!new), V>(
    rules: RowRules<R, V>, limit: nat, s: State<R>, events: seq<Event<R>>, anchor: map<int, R>,
    holds: StoredRow<R> -> bool)
    requires Lawful(rules) && Anchored(s, anchor, Unwritten(rules))
    requires forall i :: 0 <= i < |events| ==> WritesInPlace(events[i], anchor, Unwritten(rules))
    requires forall i :: 0 <= i < |events| && events[i].Write? ==> holds(events[i].row)
    requires forall row, entropy :: RewriteKeeps(rules, holds, row, entropy)
    requires forall k :: k in s.table ==> holds(s.table[k])
    ensures forall k :: k in Execute(rules, limit, s, events).table ==>
              holds(Execute(rules, limit, s, events).table[k])
    decreases |events|
  {
    if events != [] {
      var before, event := events[..|events| - 1], events[|events| - 1];
      forall i | 0 <= i < |before|
        ensures WritesInPlace(before[i], anchor, Unwritten(rules))
        ensures before[i].Write? ==> holds(before[i].row)
      {
        assert WritesInPlace(events[i], anchor, Unwritten(rules)) && before[i] == events[i];
      }
      RowsAlways(rules, limit, s, before, anchor, holds);
      LawfulRewritesAreFree(rules);
      AnchoredAlways(rules, limit, s, before, anchor, Unwritten(rules));
      assert event.Write? ==> holds(event.row);
      RowsStep(rules, limit, Execute(rules, limit, s, before), event, anchor, holds);
    }
  }

  lemma RowsStep<R(!new), V>(
    rules: RowRules<R, V>, limit: nat, s: State<R>, event: Event<R>, anchor: map<int, R>, holds: StoredRow<R> -> bool)
    requires Anchored(s, anchor, Unwritten(rules))
    requires event.Write? ==> holds(event.row)
    requires forall row, entropy :: RewriteKeeps(rules, holds, row, entropy)
    requires forall k :: k in s.table ==> holds(s.table[k])
    ensures var t := Step(rules, limit, s, event);
            forall k :: k in t.table ==> holds(t.table[k])
  {
    if event.Process? && s.Of(event.worker).Processing? && s.Of(event.worker).done < |s.Of(event.worker).batch| {
      var worker := s.Of(event.worker);
      var row := worker.batch[worker.done];
      assert WorkerAnchored(worker, anchor, Unwritten(rules));
      assert RewriteKeeps(rules, holds, row.row, event.entropy);
      if Matches(s.table, row) && Rewrites(rules, row.row, event.entropy) {
        assert row.row == StoredRow(row.row.columns, row.row.ciphertext, row.row.indexes);
        assert InPlace(s.table[row.cursor], row.cursor, anchor, Unwritten(rules));
        assert s.table[row.cursor] == row.row;
      }
    }
  }

  // ----- Each row is rewritten once -----

  /** Without other writers, a row either still holds its first bytes, or it has been
      rewritten exactly once and is current; every loaded row is one of the two. */
  ghost predicate OnceInv<R, V>(rules: RowRules<R, V>, table: Table<R>, s: State<R>) {
    && s.table.Keys == table.Keys
    && (forall k :: k in table ==> RowOnce(rules, table, s, k))
    && (forall k :: k !in table ==> multiset(s.updated)[k] == 0)
    && (forall w :: WorkerOnce(rules, table, s.Of(w)))
  }

  ghost predicate RowOnce<R, V>(rules: RowRules<R, V>, table: Table<R>, s: State<R>, k: int)
    requires k in table && k in s.table
  {
    || (s.table[k] == table[k] && multiset(s.updated)[k] == 0)
    || (!IsCurrent(rules, table[k]) && IsCurrent(rules, s.table[k]) && multiset(s.updated)[k] == 1)
  }

  ghost predicate WorkerOnce<R, V>(rules: RowRules<R, V>, table: Table<R>, worker: Worker<R>) {
    worker.Processing? ==>
      forall i :: 0 <= i < |worker.batch| ==>
        var row := worker.batch[i];
        row.cursor in table && (row.row == table[row.cursor] || IsCurrent(rules, row.row))
  }

  lemma OnceStep<R(!new), V>(rules: RowRules<R, V>, limit: nat, table: Table<R>, s: State<R>, event: Event<R>)
    requires Lawful(rules) && OnceInv(rules, table, s) && !IsForeign(event)
    ensures OnceInv(rules, table, Step(rules, limit, s, event))
  {
    var t := Step(rules, limit, s, event);
    OnceRows(rules, limit, table, s, event);
    forall v
      ensures WorkerOnce(rules, table, t.Of(v))
    {
      OnceMemory(rules, limit, table, s, event, v);
    }
  }

  lemma OnceRows<R(!new), V>(rules: RowRules<R, V>, limit: nat, table: Table<R>, s: State<R>, event: Event<R>)
    requires Lawful(rules) && OnceInv(rules, table, s) && !IsForeign(event)
    ensures var t := Step(rules, limit, s, event);
            && t.table.Keys == table.Keys
            && (forall k :: k in table ==> RowOnce(rules, table, t, k))
            && (forall k :: k !in table ==> multiset(t.updated)[k] == 0)
  {
    if event.Process? {
      OnceProcess(rules, limit, table, s, event.worker, event.entropy);
    } else {
      var t := Step(rules, limit, s, event);
      assert t.table == s.table && t.updated == s.updated;
      forall k | k in table
        ensures RowOnce(rules, table, t, k)
      {
        assert RowOnce(rules, table, s, k);
      }
    }
  }

  lemma OnceMemory<R, V>(
    rules: RowRules<R, V>, limit: nat, table: Table<R>, s: State<R>, event: Event<R>, v: nat)
    requires OnceInv(rules, table, s) && !IsForeign(event)
    ensures WorkerOnce(rules, table, Step(rules, limit, s, event).Of(v))
  {
    assert WorkerOnce(rules, table, s.Of(v));
    if event == Load(v) {
      if s.Of(v).Ready? {
        OnceBatch(rules, table, s, s.Of(v).cursor, LoadBatch(s.table, s.Of(v).cursor, limit), limit);
      }
    } else {
      assert Step(rules, limit, s, event).Of(v).Processing? ==>
          s.Of(v).Processing? && Step(rules, limit, s, event).Of(v).batch == s.Of(v).batch;
    }
  }

  lemma {:induction false} OnceBatch<R, V>(
    rules: RowRules<R, V>, table: Table<R>, s: State<R>, after: Option<int>, batch: seq<SweepRow<R>>, limit: nat)
    requires OnceInv(rules, table, s)
    requires batch == LoadBatch(s.table, after, limit)
    ensures WorkerOnce(rules, table, Processing(after, batch, 0, NO_ROWS, 0))
  {
    LoadBatchExact(s.table, after, limit);
    forall i | 0 <= i < |batch|
      ensures batch[i].cursor in table
      ensures batch[i].row == table[batch[i].cursor] || IsCurrent(rules, batch[i].row)
    {
      assert RowOnce(rules, table, s, batch[i].cursor);
    }
  }

  lemma OnceProcess<R(!new), V>(
    rules: RowRules<R, V>, limit: nat, table: Table<R>, s: State<R>, w: nat, entropy: Entropy)
    requires Lawful(rules) && OnceInv(rules, table, s)
    ensures var t := Step(rules, limit, s, Process(w, entropy));
            && t.table.Keys == table.Keys
            && (forall k :: k in table ==> RowOnce(rules, table, t, k))
            && (forall k :: k !in table ==> multiset(t.updated)[k] == 0)
  {
    var t := Step(rules, limit, s, Process(w, entropy));
    assert WorkerOnce(rules, table, s.Of(w));
    forall k | k in table
      ensures RowOnce(rules, table, t, k)
    {
      assert RowOnce(rules, table, s, k);
      if s.Of(w).Processing? && s.Of(w).done < |s.Of(w).batch| {
        OnceRow(rules, limit, table, s, w, entropy, k);
      }
    }
  }

  lemma OnceRow<R(!new), V>(
    rules: RowRules<R, V>, limit: nat, table: Table<R>, s: State<R>, w: nat, entropy: Entropy, k: int)
    requires Lawful(rules) && k in table && k in s.table
    requires s.Of(w).Processing? && s.Of(w).done < |s.Of(w).batch|
    requires RowOnce(rules, table, s, k) && WorkerOnce(rules, table, s.Of(w))
    ensures k in Step(rules, limit, s, Process(w, entropy)).table
    ensures RowOnce(rules, table, Step(rules, limit, s, Process(w, entropy)), k)
  {
    var row := s.Of(w).batch[s.Of(w).done];
    var planned := rules.plan(row.row, entropy);
    assert PlanRefines(rules, row.row, entropy) && PlanConverges(rules, row.row, entropy);
    if planned.Ok? && planned.value.Rewrite? && Matches(s.table, row) {
      assert BytesDecide(rules, row.row, s.table[row.cursor].columns);
      assert s.table[row.cursor] == StoredRow(s.table[row.cursor].columns, row.row.ciphertext, row.row.indexes);
      if row.cursor == k {
        assert s.table[k] == table[k] == row.row;
      }
    }
  }

  lemma {:induction false} OnceAlways<R(!new), V>(
    rules: RowRules<R, V>, limit: nat, table: Table<R>, checkpoint: Option<int>, events: seq<Event<R>>)
    requires Lawful(rules) && NoForeignEvents(events)
    ensures OnceInv(rules, table, Execute(rules, limit, Started(table, checkpoint), events))
    decreases |events|
  {
    if events != [] {
      var before := events[..|events| - 1];
      forall i | 0 <= i < |before|
        ensures !IsForeign(before[i])
      {
        assert !IsForeign(events[i]);
      }
      OnceAlways(rules, limit, table, checkpoint, before);
      assert !IsForeign(events[|events| - 1]);
      OnceStep(rules, limit, table, Execute(rules, limit, Started(table, checkpoint), before), events[|events| - 1]);
    }
  }

  /** By the time any worker finishes, each row that was not current has had exactly
      one successful update, and each row that was has had none, whatever crashed,
      was replayed, or ran in parallel, and whichever true checkpoint they started from. */
  lemma {:induction false} OneUpdateEach<R(!new), V>(
    rules: RowRules<R, V>, limit: nat, table: Table<R>, checkpoint: Option<int>, events: seq<Event<R>>, w: nat, k: int)
    requires Lawful(rules) && limit > 0 && SweptTo(rules, table, checkpoint) && NoForeignEvents(events)
    requires Execute(rules, limit, Started(table, checkpoint), events).Of(w).Finished?
    ensures multiset(Execute(rules, limit, Started(table, checkpoint), events).updated)[k]
         == if k in table && !IsCurrent(rules, table[k]) then 1 else 0
  {
    var s := Execute(rules, limit, Started(table, checkpoint), events);
    OnceAlways(rules, limit, table, checkpoint, events);
    assert forall i :: 0 <= i < |events| ==> !IsForeign(events[i]);
    StartedInv(rules, table, checkpoint);
    FinishedConverges(rules, limit, Started(table, checkpoint), events, w);
    if k in table {
      assert RowOnce(rules, table, s, k);
      assert k in s.table && IsCurrent(rules, s.table[k]);
    }
  }
}
