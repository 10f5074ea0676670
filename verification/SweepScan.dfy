/** What a full scan of a table sees, and what a verification pass makes of it. */
module SweepScan {
  import opened Rows
  import opened SweepProtocol
  import opened SweepSafety
  import opened SweepTheorems
  import opened Wrappers

  ghost function KeysAfter<R>(table: Table<R>, after: Option<int>): set<int> {
    set k | k in table && After(after, k)
  }

  /** Every row after the cursor, in cursor order. */
  ghost function RowsAfter<R>(table: Table<R>, after: Option<int>): seq<SweepRow<R>>
    decreases KeysAfter(table, after)
  {
    match NextCursor(table, after)
    case None => []
    case Some(cursor) =>
      assert cursor in KeysAfter(table, after) - KeysAfter(table, Some(cursor));
      [SweepRow(cursor, table[cursor])] + RowsAfter(table, Some(cursor))
  }

  function Resume<R>(after: Option<int>, batch: seq<SweepRow<R>>): Option<int> {
    if batch == [] then after else Some(LastCursor(batch))
  }

  /** Paging: a batch is the next rows of the scan, and the scan goes on strictly after
      its last row. No row is repeated or skipped at a batch boundary. */
  lemma {:induction false} LoadIsPaging<R>(table: Table<R>, after: Option<int>, limit: nat)
    ensures var batch := LoadBatch(table, after, limit);
            && RowsAfter(table, after) == batch + RowsAfter(table, Resume(after, batch))
            && (|batch| < limit ==> RowsAfter(table, Resume(after, batch)) == [])
    decreases limit
  {
    var next := NextCursor(table, after);
    if next.Some? && limit > 0 {
      var first := SweepRow(next.value, table[next.value]);
      var rest := LoadBatch(table, next, limit - 1);
      LoadIsPaging(table, next, limit - 1);
      var later := RowsAfter(table, Resume(next, rest));
      ResumeSame(after, first, rest);
      ScanStep(table, after, next.value, rest + later);
      Regroup([first], rest, later);
    }
  }

  lemma {:induction false} ScanStep<R>(table: Table<R>, after: Option<int>, cursor: int, later: seq<SweepRow<R>>)
    requires NextCursor(table, after) == Some(cursor) && RowsAfter(table, Some(cursor)) == later
    ensures RowsAfter(table, after) == [SweepRow(cursor, table[cursor])] + later
  {
  }

  lemma ResumeSame<R>(after: Option<int>, first: SweepRow<R>, rest: seq<SweepRow<R>>)
    ensures Resume(after, [first] + rest) == Resume(Some(first.cursor), rest)
  {
  }

  lemma Regroup<T>(a: seq<T>, b: seq<T>, c: seq<T>)
    ensures a + (b + c) == a + b + c
  {
  }

  /** A scan visits every row exactly once, in cursor order, with its bytes. */
  lemma {:induction false} ScanIsComplete<R>(table: Table<R>, after: Option<int>)
    ensures Ascending(RowsAfter(table, after))
    ensures RowsOf(table, after, RowsAfter(table, after))
    ensures Exhausted(table, after, RowsAfter(table, after))
  {
    var rows := RowsAfter(table, after);
    LoadIsPaging(table, after, |rows| + 1);
    LoadBatchExact(table, after, |rows| + 1);
    var batch := LoadBatch(table, after, |rows| + 1);
    assert |batch| <= |rows|;
    assert batch + [] == batch;
    assert rows == batch;
  }

  lemma {:induction false} ScanLength<R>(table: Table<R>, after: Option<int>)
    ensures |RowsAfter(table, after)| == |KeysAfter(table, after)|
    decreases KeysAfter(table, after)
  {
    var next := NextCursor(table, after);
    if next.Some? {
      assert next.value in KeysAfter(table, after) - KeysAfter(table, next);
      assert KeysAfter(table, after) == {next.value} + KeysAfter(table, next);
      ScanLength(table, next);
    } else {
      assert KeysAfter(table, after) == {};
    }
  }

  lemma {:induction false} ScanOfWholeTable<R>(table: Table<R>)
    ensures |RowsAfter(table, None)| == |table|
  {
    ScanLength(table, None);
    assert KeysAfter(table, None) == table.Keys;
  }

  // ----- How often a table is loaded from -----

  /** How often a pass over `rows` rows loads a batch. */
  function Loads(rows: nat, batchSize: nat): nat
    requires batchSize > 0
  {
    if rows == 0 then 1 else 1 + Loads(if rows < batchSize then 0 else rows - batchSize, batchSize)
  }

  /** It is one more than the least number of batches that hold every row. */
  lemma {:induction false} LoadsExactly(rows: nat, batchSize: nat)
    requires batchSize > 0
    ensures var full := Loads(rows, batchSize) - 1;
            rows <= full * batchSize < rows + batchSize
    decreases rows
  {
    if rows > 0 {
      var rest := if rows < batchSize then 0 else rows - batchSize;
      LoadsExactly(rest, batchSize);
      var full := Loads(rest, batchSize) - 1;
      assert (full + 1) * batchSize == full * batchSize + batchSize;
      if rows < batchSize {
        assert full == 0;
      }
    }
  }

  lemma LoadsStep(got: nat, rest: nat, batchSize: nat)
    requires 0 < batchSize && got <= batchSize && (got < batchSize ==> rest == 0)
    ensures Loads(got + rest, batchSize) == if got == 0 then 1 else 1 + Loads(rest, batchSize)
  {
  }

  /** How often a run or a pass over a table with these keys loads, from `after` on. */
  ghost function LoadsFrom(keys: set<int>, after: Option<int>, batchSize: nat): nat
    requires batchSize > 0
  {
    Loads(|set k | k in keys && After(after, k)|, batchSize)
  }

  lemma {:induction false} LoadCounts<R>(table: Table<R>, after: Option<int>, batchSize: nat)
    requires batchSize > 0
    ensures var batch := LoadBatch(table, after, batchSize);
            LoadsFrom(table.Keys, after, batchSize)
              == 1 + if batch == [] then 0 else LoadsFrom(table.Keys, Some(LastCursor(batch)), batchSize)
  {
    var batch := LoadBatch(table, after, batchSize);
    LoadIsPaging(table, after, batchSize);
    LoadBatchExact(table, after, batchSize);
    ScanCounts(table, after);
    ScanCounts(table, Resume(after, batch));
    LoadsStep(|batch|, |RowsAfter(table, Resume(after, batch))|, batchSize);
  }

  lemma {:induction false} ScanCounts<R>(table: Table<R>, after: Option<int>)
    ensures |RowsAfter(table, after)| == |set k | k in table.Keys && After(after, k)|
  {
    ScanLength(table, after);
    assert KeysAfter(table, after) == set k | k in table.Keys && After(after, k);
  }

  // ----- Verification of a list of rows -----

  /** The errors that a row's own bytes can cause (src/migrate/sweep.rs); the others say
      that the pass is misconfigured. */
  predicate IsRowDataFailure(error: Error) {
    match error
    case NotCiphertext | InvalidEnvelope | UnsupportedFormatVersion(_) | UnsupportedSuite(_) => true
    case UnsupportedFlags(_) | UnknownEncryptionKey(_) | UnknownBlindIndexKey(_) => true
    case AuthenticationFailed | ContextMismatch | CodecFailed | BlindIndexNormalizationFailed => true
    case MessageTooLong | PaddingOverflow | InvalidPadding | InvalidBlindIndex => true
    case UnsupportedBlindIndexVersion(_) | UnexpectedRecord | LegacyRecoveryFailed => true
    case BlindIndexKeysNotConfigured | DuplicateEncryptionKey(_) | DuplicateBlindIndexKey(_) => false
    case RandomnessUnavailable | InvalidKeyEncoding | Internal | IndexColumnMismatch(_, _) => false
  }

  /** Conflicts do not keep a report from being terminal. */
  lemma ConflictsDoNotCount(tally: Tally, conflicts: nat)
    ensures tally.(conflicts := conflicts).IsTerminal() <==> tally.legacy + tally.stale + tally.malformed == 0
  {
  }

  /** The errors that are not a row's own are those of keys, randomness and configuration. */
  lemma ConfigurationErrors(error: Error)
    ensures !IsRowDataFailure(error) <==>
              || error.BlindIndexKeysNotConfigured? || error.IndexColumnMismatch? || error.InvalidKeyEncoding?
              || error.DuplicateEncryptionKey? || error.DuplicateBlindIndexKey?
              || error.RandomnessUnavailable? || error.Internal?
  {
  }

  /** The tally with one more row classified; configuration errors abort. */
  function Count<R, V>(rules: RowRules<R, V>, tally: Tally, row: StoredRow<R>): Result<Tally> {
    match rules.classify(row)
    case Ok(state) => Ok(tally.Record(state))
    case Err(error) =>
      if IsRowDataFailure(error) then Ok(tally.(malformed := tally.malformed + 1)) else Err(error)
  }

  function CountAll<R, V>(rules: RowRules<R, V>, tally: Tally, rows: seq<SweepRow<R>>): Result<Tally>
    decreases |rows|
  {
    if rows == [] then Ok(tally) else
    var next :- Count(rules, tally, rows[0].row);
    CountAll(rules, next, rows[1..])
  }

  lemma {:induction false} CountInParts<R, V>(
    rules: RowRules<R, V>, tally: Tally, first: seq<SweepRow<R>>, rest: seq<SweepRow<R>>)
    ensures CountAll(rules, tally, first + rest)
         == match CountAll(rules, tally, first)
            case Ok(counted) => CountAll(rules, counted, rest)
            case Err(error) => Err(error)
    decreases |first|
  {
    if first == [] {
      assert first + rest == rest;
    } else {
      assert (first + rest)[1..] == first[1..] + rest;
      var next := Count(rules, tally, first[0].row);
      if next.Ok? {
        CountInParts(rules, next.value, first[1..], rest);
      }
    }
  }

  ghost predicate AllCurrent<R, V>(rules: RowRules<R, V>, rows: seq<SweepRow<R>>) {
    forall i :: 0 <= i < |rows| ==> IsCurrent(rules, rows[i].row)
  }

  /** Every row is counted once, none as a conflict, and nothing but current rows leaves
      the report terminal. */
  lemma {:induction false} CountExactly<R, V>(rules: RowRules<R, V>, tally: Tally, rows: seq<SweepRow<R>>)
    ensures var counted := CountAll(rules, tally, rows);
            && (counted.Ok? ==>
                 && counted.value.current + counted.value.stale + counted.value.legacy + counted.value.malformed
                    == tally.current + tally.stale + tally.legacy + tally.malformed + |rows|
                 && counted.value.conflicts == tally.conflicts
                 && (counted.value.IsTerminal() <==> tally.IsTerminal() && AllCurrent(rules, rows)))
            && (AllCurrent(rules, rows) ==> counted == Ok(tally.(current := tally.current + |rows|)))
    decreases |rows|
  {
    if rows != [] {
      var next := Count(rules, tally, rows[0].row);
      if next.Ok? {
        CountExactly(rules, next.value, rows[1..]);
      }
      if AllCurrent(rules, rows) {
        assert IsCurrent(rules, rows[0].row);
      }
      assert AllCurrent(rules, rows) <==> IsCurrent(rules, rows[0].row) && AllCurrent(rules, rows[1..]) by {
        assert forall i :: 1 <= i < |rows| ==> rows[i] == rows[1..][i - 1];
      }
    }
  }

  /** Classifying the row fails, and not for its own bytes. */
  predicate Aborts<R, V>(rules: RowRules<R, V>, row: StoredRow<R>) {
    rules.classify(row).Err? && !IsRowDataFailure(rules.classify(row).error)
  }

  /** Counting fails exactly if some row aborts. */
  lemma {:induction false} CountAborts<R, V>(rules: RowRules<R, V>, tally: Tally, rows: seq<SweepRow<R>>)
    ensures CountAll(rules, tally, rows).Err? <==> exists i :: 0 <= i < |rows| && Aborts(rules, rows[i].row)
    decreases |rows|
  {
    if rows != [] && !Aborts(rules, rows[0].row) {
      var rest := rows[1..];
      CountAborts(rules, Count(rules, tally, rows[0].row).value, rest);
      if i :| 0 <= i < |rows| && Aborts(rules, rows[i].row) {
        assert rest[i - 1] == rows[i];
      }
    }
  }

  /** The error is the one of the first row that aborts. */
  lemma {:induction false} FirstAborts<R, V>(rules: RowRules<R, V>, tally: Tally, rows: seq<SweepRow<R>>, i: nat)
    requires i < |rows| && Aborts(rules, rows[i].row)
    requires forall j :: 0 <= j < i ==> !Aborts(rules, rows[j].row)
    ensures CountAll(rules, tally, rows) == Err(rules.classify(rows[i].row).error)
    decreases |rows|
  {
    if i > 0 {
      var rest := rows[1..];
      forall j | 0 <= j < i - 1
        ensures !Aborts(rules, rest[j].row)
      {
        assert rest[j] == rows[j + 1];
      }
      FirstAborts(rules, Count(rules, tally, rows[0].row).value, rest, i - 1);
    }
  }

  /** How many of the rows classify as `state`. */
  function NumberOf<R, V>(rules: RowRules<R, V>, rows: seq<SweepRow<R>>, state: RowState): nat
    decreases |rows|
  {
    if rows == [] then 0
    else (if rules.classify(rows[0].row) == Ok(state) then 1 else 0) + NumberOf(rules, rows[1..], state)
  }

  /** Each counter counts exactly the rows of its state. */
  lemma {:induction false} CountsOfEachState<R, V>(rules: RowRules<R, V>, tally: Tally, rows: seq<SweepRow<R>>)
    requires CountAll(rules, tally, rows).Ok?
    ensures var counted := CountAll(rules, tally, rows).value;
            && counted.current == tally.current + NumberOf(rules, rows, Current)
            && counted.stale == tally.stale + NumberOf(rules, rows, Stale)
            && counted.legacy == tally.legacy + NumberOf(rules, rows, Legacy)
    decreases |rows|
  {
    if rows != [] {
      CountsOfEachState(rules, Count(rules, tally, rows[0].row).value, rows[1..]);
    }
  }

  lemma {:induction false} AllCurrentIsConverged<R, V>(rules: RowRules<R, V>, table: Table<R>)
    ensures AllCurrent(rules, RowsAfter(table, None)) <==> Converged(rules, table)
  {
    var rows := RowsAfter(table, None);
    ScanIsComplete(table, None);
    if AllCurrent(rules, rows) {
      forall k | k in table
        ensures IsCurrent(rules, table[k])
      {
        assert Has(rows, k);
        var i :| 0 <= i < |rows| && rows[i].cursor == k;
        assert IsCurrent(rules, rows[i].row);
      }
    }
    if Converged(rules, table) {
      forall i | 0 <= i < |rows|
        ensures IsCurrent(rules, rows[i].row)
      {
        assert rows[i].cursor in table;
      }
    }
  }

  /** A batch of current rows extends the part of the table known to be current to its
      last row, or to the whole table when nothing is left. */
  lemma {:induction false} CurrentBatchExtends<R, V>(
    rules: RowRules<R, V>, table: Table<R>, after: Option<int>, limit: nat, batch: seq<SweepRow<R>>)
    requires limit > 0 && batch == LoadBatch(table, after, limit)
    requires SweptTo(rules, table, after) && AllCurrent(rules, batch)
    ensures if batch == [] then Converged(rules, table) else SweptTo(rules, table, Some(LastCursor(batch)))
  {
    LoadBatchExact(table, after, limit);
    forall k | k in table && (batch == [] || k <= LastCursor(batch))
      ensures IsCurrent(rules, table[k])
    {
      if After(after, k) {
        assert Has(batch, k);
        var i :| 0 <= i < |batch| && batch[i].cursor == k;
        assert IsCurrent(rules, batch[i].row);
      }
    }
  }

  /** Every batch of a converged table is current. */
  lemma {:induction false} ConvergedBatch<R, V>(rules: RowRules<R, V>, table: Table<R>, after: Option<int>, limit: nat)
    requires Converged(rules, table)
    ensures AllCurrent(rules, LoadBatch(table, after, limit))
  {
    LoadBatchExact(table, after, limit);
  }

  /** The report of a verification pass over a quiet table. */
  ghost function Verification<R, V>(rules: RowRules<R, V>, table: Table<R>): Result<Tally> {
    CountAll(rules, NO_ROWS, RowsAfter(table, None))
  }

  /** A pass over a quiet table aborts exactly if the table holds a row that does. */
  lemma VerificationAborts<R, V>(rules: RowRules<R, V>, table: Table<R>)
    ensures Verification(rules, table).Err? <==> exists k :: k in table && Aborts(rules, table[k])
  {
    var rows := RowsAfter(table, None);
    ScanIsComplete(table, None);
    CountAborts(rules, NO_ROWS, rows);
    if i :| 0 <= i < |rows| && Aborts(rules, rows[i].row) {
      assert rows[i].cursor in table && table[rows[i].cursor] == rows[i].row;
    }
    if k :| k in table && Aborts(rules, table[k]) {
      assert Has(rows, k);
      var i :| 0 <= i < |rows| && rows[i].cursor == k;
      assert rows[i].row == table[k];
    }
  }

  /** The report is terminal exactly when every row of the table is current; its counts
      sum to the table's size. */
  lemma {:induction false} TerminalExactly<R, V>(rules: RowRules<R, V>, table: Table<R>)
    ensures var report := Verification(rules, table);
            && (report.Ok? && report.value.IsTerminal() <==> Converged(rules, table))
            && (report.Ok? ==>
                 var Tally(current, stale, legacy, malformed, conflicts) := report.value;
                 current + stale + legacy + malformed == |table| && conflicts == 0)
            && (Converged(rules, table) ==> report == Ok(NO_ROWS.(current := |table|)))
  {
    var rows := RowsAfter(table, None);
    ScanOfWholeTable(table);
    AllCurrentIsConverged(rules, table);
    CountExactly(rules, NO_ROWS, rows);
  }
}
