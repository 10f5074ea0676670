/** Verification (src/migrate/sweep.rs): a full pass that counts the rows by state and
    writes nothing, over a store that others may write to. */
module SweepVerifier {
  import opened SweepDriver
  import opened SweepProtocol
  import opened SweepSafety
  import opened SweepScan
  import opened SweepStores
  import opened SweepTheorems
  import opened Wrappers

  /** Counts the next batch by state; bad bytes are counted too, and a configuration error
      ends the pass. */
  method VerifyBatch<R, V>(sweep: Sweep<R, V>, store: Store<R>, after: Option<int>, report: SweepReport)
    returns (r: SweepResult<Option<int>>)
    modifies store`table, store`turns, store`loads, report
    ensures store.table == Interfere(old(store.table), NextTurn(old(store.turns)).others)
    ensures store.turns == LaterTurns(old(store.turns))
    ensures store.loads == old(store.loads) + 1
    ensures if NextTurn(old(store.turns)).fault != NoFault then
              r == StoreFailed && report.View() == old(report.View())
            else
            var batch := LoadBatch(store.table, after, sweep.batchSize);
            match CountAll(sweep.rules, old(report.View()), batch)
            case Ok(tally) =>
              report.View() == tally && r == Completed(if batch == [] then None else Some(LastCursor(batch)))
            case Err(error) => r == RowFailed(error)
  {
    var rows := store.LoadRows(after, sweep.batchSize);
    if rows.Lost? {
      return StoreFailed;
    }
    var failure := ClassifyRows(sweep, rows.value, report);
    if failure.Some? {
      return RowFailed(failure.value);
    }
    return Completed(if rows.value == [] then None else Some(LastCursor(rows.value)));
  }

  method ClassifyRows<R, V>(sweep: Sweep<R, V>, rows: seq<SweepRow<R>>, report: SweepReport)
    returns (failure: Option<Error>)
    modifies report
    ensures match CountAll(sweep.rules, old(report.View()), rows)
            case Ok(tally) => failure == None && report.View() == tally
            case Err(error) => failure == Some(error)
  {
    var i := 0;
    assert rows[0..] == rows;
    while i < |rows|
      invariant 0 <= i <= |rows|
      invariant CountAll(sweep.rules, report.View(), rows[i..]) == CountAll(sweep.rules, old(report.View()), rows)
    {
      assert rows[i..][1..] == rows[i + 1..];
      match sweep.rules.classify(rows[i].row) {
        case Ok(state) => report.Record(state);
        case Err(error) =>
          if !IsRowDataFailure(error) {
            return Some(error);
          }
          report.RecordMalformed();
      }
      i := i + 1;
    }
    return None;
  }

  /** What a pass over a quiet table has still to count and to load. */
  ghost predicate Remains<R, V>(
    sweep: Sweep<R, V>, table: Table<R>, tally: Tally, loads: nat, cursor: Option<int>)
    requires sweep.batchSize > 0
  {
    && Verification(sweep.rules, table) == CountAll(sweep.rules, tally, RowsAfter(table, cursor))
    && loads + Loads(|RowsAfter(table, cursor)|, sweep.batchSize) == Loads(|table|, sweep.batchSize)
  }

  lemma {:induction false} BatchRemains<R, V>(
    sweep: Sweep<R, V>, table: Table<R>, tally: Tally, loads: nat, cursor: Option<int>,
    batch: seq<SweepRow<R>>, counted: Result<Tally>)
    requires sweep.batchSize > 0
    requires Remains(sweep, table, tally, loads, cursor)
    requires batch == LoadBatch(table, cursor, sweep.batchSize)
    requires counted == CountAll(sweep.rules, tally, batch)
    ensures counted.Err? ==> Verification(sweep.rules, table) == Err(counted.error)
    ensures counted.Ok? && batch == [] ==>
              Verification(sweep.rules, table) == counted && loads + 1 == Loads(|table|, sweep.batchSize)
    ensures counted.Ok? && batch != [] ==>
              Remains(sweep, table, counted.value, loads + 1, Some(LastCursor(batch)))
  {
    LoadIsPaging(table, cursor, sweep.batchSize);
    LoadBatchExact(table, cursor, sweep.batchSize);
    var rest := RowsAfter(table, Resume(cursor, batch));
    LoadsStep(|batch|, |rest|, sweep.batchSize);
    CountInParts(sweep.rules, tally, batch, rest);
  }

  /** What a counted batch says of the table, if everything up to `cursor` is current. */
  lemma {:induction false} BatchVerdict<R, V>(
    sweep: Sweep<R, V>, table: Table<R>, tally: Tally, cursor: Option<int>, batch: seq<SweepRow<R>>,
    counted: Result<Tally>)
    requires sweep.batchSize > 0
    requires batch == LoadBatch(table, cursor, sweep.batchSize)
    requires counted == CountAll(sweep.rules, tally, batch)
    ensures counted.Ok? && counted.value.IsTerminal() && SweptTo(sweep.rules, table, cursor) ==>
              if batch == [] then Converged(sweep.rules, table)
              else SweptTo(sweep.rules, table, Some(LastCursor(batch)))
    ensures counted.Ok? && counted.value.IsTerminal() ==> tally.IsTerminal()
    ensures Converged(sweep.rules, table) && tally.IsTerminal() ==> counted.Ok? && counted.value.IsTerminal()
  {
    CountExactly(sweep.rules, tally, batch);
    if SweptTo(sweep.rules, table, cursor) && AllCurrent(sweep.rules, batch) {
      CurrentBatchExtends(sweep.rules, table, cursor, sweep.batchSize, batch);
    }
    if Converged(sweep.rules, table) {
      ConvergedBatch(sweep.rules, table, cursor, sweep.batchSize);
    }
  }

  /** A pass between two loads: the store, without the heap, and what was made of it. */
  datatype Pass<R> = Pass(
    table: Table<R>, turns: seq<Turn<R>>, tally: Tally, loads: nat, cursor: Option<int>,
    others: seq<Event<R>>, seen: seq<SweepRow<R>>)

  /** The store was changed by the other writers alone, and what was seen was counted. */
  ghost predicate Underway<R, V>(sweep: Sweep<R, V>, start: Pass<R>, now: Pass<R>) {
    && (forall i :: 0 <= i < |now.turns| ==> AllForeign(now.turns[i].others))
    && now.table == Interfere(start.table, now.others)
    && now.others + Others(now.turns) == Others(start.turns)
    && (start.turns == [] ==> now.turns == [])
    && Ascending(now.seen) && (forall i :: 0 <= i < |now.seen| ==> !After(now.cursor, now.seen[i].cursor))
    && CountAll(sweep.rules, NO_ROWS, now.seen) == Ok(now.tally)
  }

  /** Every call was answered; each row seen was in the table when it was loaded; and of the
      rows up to the cursor, those that no other writer touched were all seen. */
  ghost predicate Thorough<R>(start: Pass<R>, now: Pass<R>) {
    && Answered(start.turns, now.turns, false)
    && SeenAsStored(start.table, now.others, now.seen)
    && forall k :: k in start.table && Untouched(now.others, k) && !After(now.cursor, k) ==>
         SweepRow(k, start.table[k]) in now.seen
  }

  /** At some moment between the other writers' events each row was in the table. */
  ghost predicate SeenAsStored<R>(table: Table<R>, others: seq<Event<R>>, seen: seq<SweepRow<R>>) {
    forall i :: 0 <= i < |seen| ==> WasStored(table, others, seen[i])
  }

  ghost predicate WasStored<R>(table: Table<R>, others: seq<Event<R>>, row: SweepRow<R>) {
    exists n :: 0 <= n <= |others| && Holds(Interfere(table, others[..n]), row)
  }

  ghost predicate Holds<R>(table: Table<R>, row: SweepRow<R>) {
    row.cursor in table && table[row.cursor] == row.row
  }

  predicate Untouched<R>(others: seq<Event<R>>, k: int) {
    forall i :: 0 <= i < |others| ==> !Touches(others[i], k)
  }

  predicate Touches<R>(event: Event<R>, k: int) {
    match event
    case Write(cursor, _) => cursor == k
    case Delete(cursor) => cursor == k
    case _ => false
  }

  lemma {:induction false} UntouchedStays<R>(table: Table<R>, others: seq<Event<R>>, k: int)
    requires Untouched(others, k)
    ensures k in Interfere(table, others) <==> k in table
    ensures k in table ==> Interfere(table, others)[k] == table[k]
    decreases |others|
  {
    if others != [] {
      var before := others[..|others| - 1];
      assert !Touches(others[|others| - 1], k);
      forall i | 0 <= i < |before|
        ensures !Touches(before[i], k)
      {
        assert before[i] == others[i];
      }
      UntouchedStays(table, before, k);
    }
  }

  lemma ThoroughStep<R, V>(
    sweep: Sweep<R, V>, start: Pass<R>, now: Pass<R>, batch: seq<SweepRow<R>>, tally: Tally)
    requires Underway(sweep, start, now) && Thorough(start, now) && sweep.batchSize > 0
    requires batch == LoadBatch(Interfere(now.table, NextTurn(now.turns).others), now.cursor, sweep.batchSize)
    ensures var next := Loaded(now, batch, tally);
            && SeenAsStored(start.table, next.others, next.seen)
            && (batch != [] && NextTurn(now.turns).fault == NoFault ==> Thorough(start, next))
            && (batch == [] ==> SawUntouched(start.table, next.others, next.seen))
  {
    var next, more := Loaded(now, batch, tally), NextTurn(now.turns).others;
    UnderwayStep(sweep, start, now, batch, tally);
    BatchIsStored(next.table, now.cursor, sweep.batchSize);
    SeenMoreAsStored(start.table, now.others, more, now.seen, batch, next.table);
    forall k | k in start.table && Untouched(next.others, k) && (batch == [] || !After(next.cursor, k))
      ensures SweepRow(k, start.table[k]) in next.seen
    {
      SawOneMore(start.table, now.others, more, now.seen, now.cursor, sweep.batchSize, next.table, k);
    }
    if batch != [] && NextTurn(now.turns).fault == NoFault {
      OneCall(now.turns);
      MoreCalls(start.turns, now.turns, next.turns, false);
    }
  }

  lemma {:induction false} SawOneMore<R>(
    table: Table<R>, others: seq<Event<R>>, more: seq<Event<R>>, seen: seq<SweepRow<R>>, cursor: Option<int>,
    limit: nat, after: Table<R>, k: int)
    requires limit > 0 && k in table && Untouched(others + more, k) && after == Interfere(table, others + more)
    requires Untouched(others, k) && !After(cursor, k) ==> SweepRow(k, table[k]) in seen
    ensures var batch := LoadBatch(after, cursor, limit);
            batch == [] || !After(Resume(cursor, batch), k) ==> SweepRow(k, table[k]) in seen + batch
  {
    forall i | 0 <= i < |others|
      ensures !Touches(others[i], k)
    {
      assert others[i] == (others + more)[i];
    }
    UntouchedStays(table, others + more, k);
    LoadedWhole(after, cursor, limit, k);
  }

  lemma {:induction false} SeenMoreAsStored<R>(
    table: Table<R>, others: seq<Event<R>>, more: seq<Event<R>>, seen: seq<SweepRow<R>>, batch: seq<SweepRow<R>>,
    after: Table<R>)
    requires SeenAsStored(table, others, seen) && after == Interfere(table, others + more)
    requires forall i :: 0 <= i < |batch| ==> Holds(after, batch[i])
    ensures SeenAsStored(table, others + more, seen + batch)
  {
    forall i | 0 <= i < |seen + batch|
      ensures WasStored(table, others + more, (seen + batch)[i])
    {
      if i < |seen| {
        assert WasStored(table, others, seen[i]);
        StillWasStored(table, others, more, seen[i]);
      } else {
        StoredNow(table, others + more, batch[i - |seen|]);
      }
    }
  }

  lemma StillWasStored<R>(table: Table<R>, others: seq<Event<R>>, more: seq<Event<R>>, row: SweepRow<R>)
    requires WasStored(table, others, row)
    ensures WasStored(table, others + more, row)
  {
    var n :| 0 <= n <= |others| && Holds(Interfere(table, others[..n]), row);
    assert (others + more)[..n] == others[..n];
  }

  lemma {:induction false} StoredNow<R>(table: Table<R>, others: seq<Event<R>>, row: SweepRow<R>)
    requires Holds(Interfere(table, others), row)
    ensures WasStored(table, others, row)
  {
    assert others[..|others|] == others;
  }

  lemma {:induction false} BatchIsStored<R>(table: Table<R>, after: Option<int>, limit: nat)
    ensures var batch := LoadBatch(table, after, limit);
            forall i :: 0 <= i < |batch| ==> Holds(table, batch[i])
  {
    LoadBatchExact(table, after, limit);
  }

  /** A load after `after` misses no row up to its last, and none at all if it is empty. */
  lemma {:induction false} LoadedWhole<R>(table: Table<R>, after: Option<int>, limit: nat, k: int)
    requires limit > 0 && k in table
    ensures var batch := LoadBatch(table, after, limit);
            After(after, k) ==>
              batch != [] && (k <= LastCursor(batch) ==> SweepRow(k, table[k]) in batch)
  {
    var batch := LoadBatch(table, after, limit);
    LoadBatchExact(table, after, limit);
    if After(after, k) && (batch == [] || k <= LastCursor(batch)) {
      assert Has(batch, k);
      var i :| 0 <= i < |batch| && batch[i].cursor == k;
      assert batch[i] == SweepRow(k, table[k]);
    }
  }

  /** Every row that no other writer touched was seen as it is. */
  ghost predicate SawUntouched<R>(table: Table<R>, others: seq<Event<R>>, seen: seq<SweepRow<R>>) {
    forall k :: k in table && Untouched(others, k) ==> SweepRow(k, table[k]) in seen
  }

  /** Among writers of current rows: while the report is terminal all rows up to the cursor
      are current, and a table of current rows stays one and is so reported. */
  ghost predicate Trustworthy<R, V>(sweep: Sweep<R, V>, start: Pass<R>, now: Pass<R>) {
    CurrentWriters(sweep.rules, Others(start.turns)) ==>
      && CurrentWriters(sweep.rules, Others(now.turns))
      && (now.tally.IsTerminal() ==> SweptTo(sweep.rules, now.table, now.cursor))
      && (Converged(sweep.rules, start.table) ==> Converged(sweep.rules, now.table) && now.tally.IsTerminal())
  }

  ghost predicate Exact<R, V>(sweep: Sweep<R, V>, start: Pass<R>, now: Pass<R>)
    requires sweep.batchSize > 0
  {
    start.turns == [] ==>
      now.table == start.table && Remains(sweep, now.table, now.tally, now.loads, now.cursor)
  }

  /** The pass after one more load, of `batch`, whatever the result was counted as. */
  function Loaded<R>(now: Pass<R>, batch: seq<SweepRow<R>>, tally: Tally): Pass<R> {
    var turn := NextTurn(now.turns);
    Pass(Interfere(now.table, turn.others), LaterTurns(now.turns), tally, now.loads + 1,
         if batch == [] then now.cursor else Some(LastCursor(batch)), now.others + turn.others, now.seen + batch)
  }

  lemma {:induction false} UnderwayStep<R, V>(
    sweep: Sweep<R, V>, start: Pass<R>, now: Pass<R>, batch: seq<SweepRow<R>>, tally: Tally)
    requires Underway(sweep, start, now)
    requires batch == []
          || batch == LoadBatch(Interfere(now.table, NextTurn(now.turns).others), now.cursor, sweep.batchSize)
    ensures var next := Loaded(now, batch, tally);
            && next.table == Interfere(start.table, next.others)
            && next.others + Others(next.turns) == Others(start.turns)
            && (start.turns == [] ==> next.turns == [])
            && Ascending(next.seen) && (forall i :: 0 <= i < |next.seen| ==> !After(next.cursor, next.seen[i].cursor))
            && CountAll(sweep.rules, NO_ROWS, next.seen) == CountAll(sweep.rules, now.tally, batch)
  {
    LoadBatchExact(Interfere(now.table, NextTurn(now.turns).others), now.cursor, sweep.batchSize);
    OthersStep(start.table, now.others, now.turns);
    SeenMore(sweep.rules, now.seen, now.cursor, batch);
  }

  lemma {:induction false} TrustworthyStep<R, V>(
    sweep: Sweep<R, V>, start: Pass<R>, now: Pass<R>, batch: seq<SweepRow<R>>, counted: Result<Tally>)
    requires sweep.batchSize > 0 && Trustworthy(sweep, start, now)
    requires batch == LoadBatch(Interfere(now.table, NextTurn(now.turns).others), now.cursor, sweep.batchSize)
    requires counted == CountAll(sweep.rules, now.tally, batch)
    ensures counted.Ok? && batch != [] ==> Trustworthy(sweep, start, Loaded(now, batch, counted.value))
    ensures CurrentWriters(sweep.rules, Others(start.turns)) ==>
              var table := Interfere(now.table, NextTurn(now.turns).others);
              && (counted.Ok? && batch == [] && counted.value.IsTerminal() ==> Converged(sweep.rules, table))
              && (Converged(sweep.rules, start.table) ==>
                    Converged(sweep.rules, table) && counted.Ok? && counted.value.IsTerminal())
  {
    if CurrentWriters(sweep.rules, Others(start.turns)) {
      var table := Interfere(now.table, NextTurn(now.turns).others);
      TurnKeepsCurrent(sweep.rules, now.table, now.turns, now.cursor);
      BatchVerdict(sweep, table, now.tally, now.cursor, batch, counted);
    }
  }

  /** A failing store does not disturb a table of current rows. */
  lemma TrustworthyFault<R, V>(sweep: Sweep<R, V>, start: Pass<R>, now: Pass<R>)
    requires Trustworthy(sweep, start, now)
    ensures CurrentWriters(sweep.rules, Others(start.turns)) && Converged(sweep.rules, start.table) ==>
              Converged(sweep.rules, Interfere(now.table, NextTurn(now.turns).others))
  {
    if CurrentWriters(sweep.rules, Others(start.turns)) {
      TurnKeepsCurrent(sweep.rules, now.table, now.turns, now.cursor);
    }
  }

  lemma {:induction false} ExactStep<R, V>(
    sweep: Sweep<R, V>, start: Pass<R>, now: Pass<R>, batch: seq<SweepRow<R>>, counted: Result<Tally>)
    requires sweep.batchSize > 0 && Exact(sweep, start, now) && (start.turns == [] ==> now.turns == [])
    requires batch == LoadBatch(Interfere(now.table, NextTurn(now.turns).others), now.cursor, sweep.batchSize)
    requires counted == CountAll(sweep.rules, now.tally, batch)
    ensures counted.Ok? && batch != [] ==> Exact(sweep, start, Loaded(now, batch, counted.value))
    ensures start.turns == [] ==>
              && Interfere(now.table, NextTurn(now.turns).others) == start.table
              && (counted.Err? ==> Verification(sweep.rules, start.table) == Err(counted.error))
              && (counted.Ok? && batch == [] ==>
                    && Verification(sweep.rules, start.table) == counted
                    && now.loads + 1 == Loads(|start.table|, sweep.batchSize))
  {
    if start.turns == [] {
      BatchRemains(sweep, now.table, now.tally, now.loads, now.cursor, batch, counted);
    }
  }

  /** What a pass that ended so may claim. */
  ghost predicate Claims<R, V>(sweep: Sweep<R, V>, start: Pass<R>, end: Pass<R>, r: SweepResult<Option<int>>)
    requires sweep.batchSize > 0
  {
    && end.table == Interfere(start.table, end.others)
    && end.others + Others(end.turns) == Others(start.turns)
    && Ascending(end.seen)
    && ThoroughClaim(start, end, r)
    && SeenClaim(sweep, start, end, r)
    && (CurrentWriters(sweep.rules, Others(start.turns)) ==> CurrentClaim(sweep, start, end, r))
    && (start.turns == [] ==> QuietClaim(sweep, start, end, r))
  }

  ghost predicate ThoroughClaim<R>(start: Pass<R>, end: Pass<R>, r: SweepResult<Option<int>>) {
    && Answered(start.turns, end.turns, r.StoreFailed?)
    && SeenAsStored(start.table, end.others, end.seen)
    && (r.Completed? ==> SawUntouched(start.table, end.others, end.seen))
  }

  lemma EndThorough<R, V>(
    sweep: Sweep<R, V>, start: Pass<R>, now: Pass<R>, batch: seq<SweepRow<R>>, tally: Tally,
    r: SweepResult<Option<int>>)
    requires sweep.batchSize > 0 && Underway(sweep, start, now) && Thorough(start, now)
    requires batch == LoadBatch(Interfere(now.table, NextTurn(now.turns).others), now.cursor, sweep.batchSize)
    requires NextTurn(now.turns).fault == NoFault && (r.Completed? ==> batch == []) && !r.StoreFailed?
    ensures ThoroughClaim(start, Loaded(now, batch, tally), r)
  {
    ThoroughStep(sweep, start, now, batch, tally);
    OneCall(now.turns);
    MoreCalls(start.turns, now.turns, LaterTurns(now.turns), false);
  }

  lemma FaultThorough<R>(start: Pass<R>, now: Pass<R>, tally: Tally)
    requires Thorough(start, now) && NextTurn(now.turns).fault != NoFault
    ensures ThoroughClaim(start, Loaded(now, [], tally), StoreFailed)
  {
    SeenMoreAsStored(start.table, now.others, NextTurn(now.turns).others, now.seen, [],
                     Interfere(start.table, now.others + NextTurn(now.turns).others));
    OneCall(now.turns);
    MoreCalls(start.turns, now.turns, LaterTurns(now.turns), true);
  }

  ghost predicate SeenClaim<R, V>(sweep: Sweep<R, V>, start: Pass<R>, end: Pass<R>, r: SweepResult<Option<int>>) {
    match r
    case Completed(_) => CountAll(sweep.rules, NO_ROWS, end.seen) == Ok(end.tally)
    case RowFailed(error) => CountAll(sweep.rules, NO_ROWS, end.seen) == Err(error)
    case StoreFailed => true
  }

  ghost predicate CurrentClaim<R, V>(sweep: Sweep<R, V>, start: Pass<R>, end: Pass<R>, r: SweepResult<Option<int>>) {
    && (r.Completed? && end.tally.IsTerminal() ==> Converged(sweep.rules, end.table))
    && (Converged(sweep.rules, start.table) ==>
          Converged(sweep.rules, end.table) && !r.RowFailed? && (r.Completed? ==> end.tally.IsTerminal()))
  }

  ghost predicate QuietClaim<R, V>(sweep: Sweep<R, V>, start: Pass<R>, end: Pass<R>, r: SweepResult<Option<int>>)
    requires sweep.batchSize > 0
  {
    && end.table == start.table
    && match r
       case Completed(_) =>
         Verification(sweep.rules, end.table) == Ok(end.tally) && end.loads == Loads(|end.table|, sweep.batchSize)
       case RowFailed(error) => Verification(sweep.rules, end.table) == Err(error)
       case StoreFailed => false
  }

  lemma FaultClaims<R, V>(sweep: Sweep<R, V>, start: Pass<R>, now: Pass<R>)
    requires sweep.batchSize > 0
    requires Underway(sweep, start, now) && Thorough(start, now) && Trustworthy(sweep, start, now)
    requires NextTurn(now.turns).fault != NoFault
    ensures Claims(sweep, start, Loaded(now, [], now.tally), StoreFailed)
  {
    UnderwayStep(sweep, start, now, [], now.tally);
    FaultThorough(start, now, now.tally);
    TrustworthyFault(sweep, start, now);
  }

  lemma {:induction false} FailureClaims<R, V>(
    sweep: Sweep<R, V>, start: Pass<R>, now: Pass<R>, batch: seq<SweepRow<R>>, error: Error, tally: Tally)
    requires sweep.batchSize > 0
    requires Underway(sweep, start, now) && Thorough(start, now)
    requires Trustworthy(sweep, start, now) && Exact(sweep, start, now)
    requires NextTurn(now.turns).fault == NoFault
    requires batch == LoadBatch(Interfere(now.table, NextTurn(now.turns).others), now.cursor, sweep.batchSize)
    requires CountAll(sweep.rules, now.tally, batch) == Err(error)
    ensures Claims(sweep, start, Loaded(now, batch, tally), RowFailed(error))
  {
    EndThorough(sweep, start, now, batch, tally, RowFailed(error));
    UnderwayStep(sweep, start, now, batch, tally);
    TrustworthyStep(sweep, start, now, batch, Err(error));
    ExactStep(sweep, start, now, batch, Err(error));
  }

  lemma EndClaims<R, V>(sweep: Sweep<R, V>, start: Pass<R>, now: Pass<R>)
    requires sweep.batchSize > 0
    requires Underway(sweep, start, now) && Thorough(start, now)
    requires Trustworthy(sweep, start, now) && Exact(sweep, start, now)
    requires NextTurn(now.turns).fault == NoFault
    requires LoadBatch(Interfere(now.table, NextTurn(now.turns).others), now.cursor, sweep.batchSize) == []
    ensures Claims(sweep, start, Loaded(now, [], now.tally), Completed(None))
  {
    EndThorough(sweep, start, now, [], now.tally, Completed(None));
    UnderwayStep(sweep, start, now, [], now.tally);
    TrustworthyStep(sweep, start, now, [], Ok(now.tally));
    ExactStep(sweep, start, now, [], Ok(now.tally));
  }

  lemma {:induction false} GoesOn<R, V>(
    sweep: Sweep<R, V>, start: Pass<R>, now: Pass<R>, batch: seq<SweepRow<R>>, tally: Tally)
    requires sweep.batchSize > 0 && batch != [] && NextTurn(now.turns).fault == NoFault
    requires Underway(sweep, start, now) && Thorough(start, now)
    requires Trustworthy(sweep, start, now) && Exact(sweep, start, now)
    requires batch == LoadBatch(Interfere(now.table, NextTurn(now.turns).others), now.cursor, sweep.batchSize)
    requires CountAll(sweep.rules, now.tally, batch) == Ok(tally)
    ensures var next := Loaded(now, batch, tally);
            && Underway(sweep, start, next) && Thorough(start, next)
            && Trustworthy(sweep, start, next) && Exact(sweep, start, next)
  {
    ThoroughStep(sweep, start, now, batch, tally);
    UnderwayStep(sweep, start, now, batch, tally);
    TrustworthyStep(sweep, start, now, batch, Ok(tally));
    ExactStep(sweep, start, now, batch, Ok(tally));
  }

  lemma Begins<R, V>(sweep: Sweep<R, V>, start: Pass<R>)
    requires sweep.batchSize > 0 && forall i :: 0 <= i < |start.turns| ==> AllForeign(start.turns[i].others)
    requires start == Pass(start.table, start.turns, NO_ROWS, 0, None, [], [])
    ensures Underway(sweep, start, start) && Thorough(start, start)
    ensures Trustworthy(sweep, start, start) && Exact(sweep, start, start)
  {
    BeginsUnderway(sweep, start);
    BeginsThorough(start);
    BeginsExact(sweep, start);
  }

  lemma BeginsUnderway<R, V>(sweep: Sweep<R, V>, start: Pass<R>)
    requires forall i :: 0 <= i < |start.turns| ==> AllForeign(start.turns[i].others)
    requires start == Pass(start.table, start.turns, NO_ROWS, 0, None, [], [])
    ensures Underway(sweep, start, start)
  {
    var none: seq<Event<R>> := [];
    assert none + Others(start.turns) == Others(start.turns);
  }

  lemma BeginsThorough<R>(start: Pass<R>)
    requires start == Pass(start.table, start.turns, NO_ROWS, 0, None, [], [])
    ensures Thorough(start, start)
  {
    OneCall(start.turns);
  }

  lemma BeginsExact<R, V>(sweep: Sweep<R, V>, start: Pass<R>)
    requires sweep.batchSize > 0
    requires start == Pass(start.table, start.turns, NO_ROWS, 0, None, [], [])
    ensures Exact(sweep, start, start)
  {
    ScanOfWholeTable(start.table);
  }

  /** One load of a pass. */
  method VerifyNext<R, V>(
    sweep: Sweep<R, V>, store: Store<R>, cursor: Option<int>, report: SweepReport,
    ghost start: Pass<R>, ghost now: Pass<R>)
    returns (r: SweepResult<Option<int>>, ghost next: Pass<R>)
    requires sweep.batchSize > 0
    requires Underway(sweep, start, now) && Thorough(start, now)
    requires Trustworthy(sweep, start, now) && Exact(sweep, start, now)
    requires now.table == store.table && now.turns == store.turns && now.cursor == cursor
    requires now.tally == report.View()
    modifies store`table, store`turns, store`loads, report
    ensures next.table == store.table && next.turns == store.turns
    ensures next.tally == report.View() && next.loads - now.loads == store.loads - old(store.loads)
    ensures store.turns == LaterTurns(old(store.turns))
    ensures if r.Completed? && r.value.Some? then
              && next.cursor == r.value
              && Underway(sweep, start, next) && Thorough(start, next)
              && Trustworthy(sweep, start, next) && Exact(sweep, start, next)
            else Claims(sweep, start, next, r)
    ensures r.Completed? && r.value.Some? ==> After(cursor, r.value.value) && r.value.value in store.table
    ensures old(store.turns) == [] ==> store.table == old(store.table)
  {
    r := VerifyBatch(sweep, store, cursor, report);
    ghost var batch := LoadBatch(store.table, cursor, sweep.batchSize);
    match r
    case StoreFailed =>
      next := Loaded(now, [], now.tally);
      FaultClaims(sweep, start, now);
    case RowFailed(error) =>
      next := Loaded(now, batch, report.View());
      FailureClaims(sweep, start, now, batch, error, report.View());
    case Completed(None) =>
      next := Loaded(now, [], now.tally);
      EndClaims(sweep, start, now);
    case Completed(Some(last)) =>
      LoadBatchExact(store.table, cursor, sweep.batchSize);
      next := Loaded(now, batch, report.View());
      GoesOn(sweep, start, now, batch, report.View());
  }

  /** One verification, from the first row to the last: of the store it changes nothing
      but the number of loads. Whoever else writes, its report counts each row it saw once,
      in cursor order. Among writers of current rows, a terminal report means that every
      row is current, and a table of current rows is reported terminal. On a quiet store
      the report is the whole table's, whatever the batch size. */
  method Verify<R, V>(sweep: Sweep<R, V>, store: Store<R>)
    returns (r: SweepResult<SweepReport>, ghost others: seq<Event<R>>, ghost seen: seq<SweepRow<R>>)
    requires sweep.batchSize > 0 && store.Valid()
    modifies store`table, store`turns, store`loads
    ensures store.table == Interfere(old(store.table), others)
    ensures others + Others(store.turns) == Others(old(store.turns))
    ensures r.Completed? ==> fresh(r.value)
    ensures Answered(old(store.turns), store.turns, r.StoreFailed?)
    ensures Ascending(seen) && SeenAsStored(old(store.table), others, seen)
    ensures r.Completed? ==> SawUntouched(old(store.table), others, seen)
    ensures match r
            case Completed(report) => CountAll(sweep.rules, NO_ROWS, seen) == Ok(report.View())
            case RowFailed(error) => CountAll(sweep.rules, NO_ROWS, seen) == Err(error)
            case StoreFailed => true
    ensures CurrentWriters(sweep.rules, Others(old(store.turns))) ==>
              && (r.Completed? && r.value.View().IsTerminal() ==> Converged(sweep.rules, store.table))
              && (old(Converged(sweep.rules, store.table)) ==>
                    && Converged(sweep.rules, store.table)
                    && !r.RowFailed? && (r.Completed? ==> r.value.View().IsTerminal()))
    ensures old(store.turns) == [] ==>
              && store.table == old(store.table)
              && match r
                 case Completed(report) =>
                   && Verification(sweep.rules, store.table) == Ok(report.View())
                   && store.loads - old(store.loads) == Loads(|store.table|, sweep.batchSize)
                 case RowFailed(error) => Verification(sweep.rules, store.table) == Err(error)
                 case StoreFailed => false
  {
    ghost var start := Pass(store.table, store.turns, NO_ROWS, 0, None, [], []);
    Begins(sweep, start);
    ghost var now := start;
    var report := new SweepReport();
    var cursor: Option<int> := None;
    while true
      invariant fresh(report)
      invariant now.table == store.table && now.turns == store.turns && now.cursor == cursor
      invariant now.tally == report.View() && store.loads == old(store.loads) + now.loads
      invariant Underway(sweep, start, now) && Thorough(start, now)
      invariant Trustworthy(sweep, start, now) && Exact(sweep, start, now)
      decreases |store.turns|, KeysAfter(store.table, cursor)
    {
      ghost var turns, keys := store.turns, KeysAfter(store.table, cursor);
      var next;
      next, now := VerifyNext(sweep, store, cursor, report, start, now);
      others, seen := now.others, now.seen;
      match next {
        case RowFailed(error) => return RowFailed(error), others, seen;
        case StoreFailed => return StoreFailed, others, seen;
        case Completed(None) => return Completed(report), others, seen;
        case Completed(Some(checkpoint)) =>
          if turns == [] {
            assert checkpoint in keys && checkpoint !in KeysAfter(store.table, Some(checkpoint));
          }
          cursor := Some(checkpoint);
      }
    }
  }

  /** A turn of writers of current rows keeps current what was current. */
  lemma {:induction false} TurnKeepsCurrent<R, V>(
    rules: RowRules<R, V>, table: Table<R>, turns: seq<Turn<R>>, cursor: Option<int>)
    requires CurrentWriters(rules, Others(turns))
    ensures CurrentWriters(rules, Others(LaterTurns(turns)))
    ensures SweptTo(rules, table, cursor) ==> SweptTo(rules, Interfere(table, NextTurn(turns).others), cursor)
    ensures Converged(rules, table) ==> Converged(rules, Interfere(table, NextTurn(turns).others))
  {
    var others := NextTurn(turns).others;
    CurrentTurns(rules, turns);
    forall k | k in Interfere(table, others) && (k in table ==> IsCurrent(rules, table[k]))
      ensures IsCurrent(rules, Interfere(table, others)[k])
    {
      OthersKeepCurrent(rules, table, others, k);
    }
  }

  lemma {:induction false} SeenMore<R, V>(
    rules: RowRules<R, V>, seen: seq<SweepRow<R>>, cursor: Option<int>, batch: seq<SweepRow<R>>)
    requires Ascending(seen) && (forall i :: 0 <= i < |seen| ==> !After(cursor, seen[i].cursor))
    requires Ascending(batch) && (forall i :: 0 <= i < |batch| ==> After(cursor, batch[i].cursor))
    requires CountAll(rules, NO_ROWS, seen).Ok?
    ensures Ascending(seen + batch)
    ensures batch != [] ==> forall i :: 0 <= i < |seen + batch| ==> (seen + batch)[i].cursor <= LastCursor(batch)
    ensures CountAll(rules, NO_ROWS, seen + batch) == CountAll(rules, CountAll(rules, NO_ROWS, seen).value, batch)
  {
    CountInParts(rules, NO_ROWS, seen, batch);
  }

  lemma {:induction false} OthersStep<R>(table: Table<R>, others: seq<Event<R>>, turns: seq<Turn<R>>)
    requires forall i :: 0 <= i < |turns| ==> AllForeign(turns[i].others)
    ensures Interfere(table, others + NextTurn(turns).others)
         == Interfere(Interfere(table, others), NextTurn(turns).others)
    ensures others + NextTurn(turns).others + Others(LaterTurns(turns)) == others + Others(turns)
  {
    InterfereInParts(table, others, NextTurn(turns).others);
    OthersInParts(others, turns);
  }

  lemma {:induction false} OthersInParts<R>(others: seq<Event<R>>, turns: seq<Turn<R>>)
    ensures others + NextTurn(turns).others + Others(LaterTurns(turns)) == others + Others(turns)
  {
    assert NextTurn(turns).others + Others(LaterTurns(turns)) == Others(turns);
  }

  lemma {:induction false} InterfereInParts<R>(table: Table<R>, first: seq<Event<R>>, rest: seq<Event<R>>)
    ensures Interfere(table, first + rest) == Interfere(Interfere(table, first), rest)
    decreases |rest|
  {
    if rest == [] {
      assert first + rest == first;
    } else {
      assert (first + rest)[..|first + rest| - 1] == first + rest[..|rest| - 1];
      InterfereInParts(table, first, rest[..|rest| - 1]);
    }
  }
}
