/** End to end: the sweep over the real planner. Every premise is on the configuration,
    the primitives and the other writers; nothing is assumed of the stored bytes. */
module Migration {
  import opened BlindFormat
  import opened BlindIndexes
  import opened Bytes
  import opened EnvelopeFormat
  import opened Envelopes
  import opened Keyrings
  import opened PlanOutcomes
  import opened PlannerLaws
  import opened Records
  import opened RowPlanner
  import opened Rows
  import opened SweepProtocol
  import opened SweepSafety
  import opened SweepScan
  import opened SweepTheorems
  import opened Wrappers

  /** The planner, as the sweep calls it. */
  function Rules<R, V>(p: Planner<R, V>): RowRules<R, V>
    requires p.Configured()
  {
    RowRules(
      row => ClassifyRow(p, row),
      (row, entropy) => PlanRow(p, row, entropy),
      row => ReadPermissive(p, row))
  }

  /** The planner obeys the laws the sweep relies on. */
  lemma RulesAreLawful<R(!new), V(!new)>(p: Planner<R, V>)
    requires Valid(p)
    ensures Lawful(Rules(p))
  {
    var rules := Rules(p);
    forall row, entropy
      ensures PlanRefines(rules, row, entropy)
      ensures PlanConverges(rules, row, entropy)
      ensures PlanKeepsValue(rules, row, entropy)
    {
      RowIsLawful(p, rules, row, entropy);
    }
    forall row, columns
      ensures BytesDecide(rules, row, columns)
    {
      if ClassifyRow(p, row).Ok? && ClassifyRow(p, row) != Ok(Current) {
        StaleBytesAreNeverCurrent(p, row, columns);
      }
    }
  }

  lemma RowIsLawful<R(!new), V(!new)>(p: Planner<R, V>, rules: RowRules<R, V>, row: StoredRow<R>, entropy: Entropy)
    requires Valid(p) && rules == Rules(p)
    ensures PlanRefines(rules, row, entropy)
    ensures PlanConverges(rules, row, entropy)
    ensures PlanKeepsValue(rules, row, entropy)
  {
    PlanRefinesClassify(p, row, entropy);
    if PlanRow(p, row, entropy).Ok? && PlanRow(p, row, entropy).value.Rewrite? {
      RewriteIsFixedPoint(p, row, entropy, entropy);
      RewriteKeepsValue(p, row, entropy);
    }
  }

  // ----- Retiring the previous keys -----

  /** What the steady state reads: current keys only, no legacy handler. */
  ghost function StrictValues<R, V>(p: Planner<R, V>, table: Table<R>): map<int, Result<V>> {
    map k | k in table :: ReadStrict(p, CurrentOnly(p.keys), table[k])
  }

  /** The premises of a migration: a valid planner, a checkpoint that is true of the table,
      and other writers that, up to the `m`th event, write rows that are current or that
      the sweep has yet to reach, and from then on only current rows. */
  ghost predicate Sound<R(!new), V(!new)>(
    p: Planner<R, V>, limit: nat, table: Table<R>, checkpoint: Option<int>, events: seq<Event<R>>, m: nat)
  {
    && Valid(p) && limit > 0 && m <= |events|
    && SweptTo(Rules(p), table, checkpoint)
    && TimelyWriters(Rules(p), limit, Started(table, checkpoint), events[..m])
    && CurrentWriters(Rules(p), events[m..])
  }

  /** Rows stored and written have the record IDs that `anchor` gives their cursors, or
      bytes that are free to have any. */
  ghost predicate Kept<R>(
    table: Table<R>, events: seq<Event<R>>, anchor: map<int, R>, free: (Bytes, seq<Bytes>) -> bool)
  {
    && (forall k :: k in table ==> InPlace(table[k], k, anchor, free))
    && (forall i :: 0 <= i < |events| ==> WritesInPlace(events[i], anchor, free))
  }

  /** In a converged table, retiring the previous keys and the legacy handler changes no
      row's reading. */
  lemma ConvergedReadsStrictly<R, V>(p: Planner<R, V>, rules: RowRules<R, V>, table: Table<R>)
    requires p.Configured() && p.keys.Valid() && rules == Rules(p)
    requires Converged(rules, table)
    ensures StrictValues(p, table) == Values(rules, table)
  {
    forall k | k in table
      ensures ReadStrict(p, CurrentOnly(p.keys), table[k]) == rules.read(table[k])
    {
      assert IsCurrent(rules, table[k]);
      StrictReadOfCurrent(p, table[k]);
    }
  }

  lemma {:induction false} ConvergedFromTheStart<R(!new), V>(
    rules: RowRules<R, V>, limit: nat, table: Table<R>, checkpoint: Option<int>, events: seq<Event<R>>, m: nat, w: nat)
    requires Lawful(rules) && limit > 0 && m <= |events| && SweptTo(rules, table, checkpoint)
    requires TimelyWriters(rules, limit, Started(table, checkpoint), events[..m])
    requires CurrentWriters(rules, events[m..])
    requires Execute(rules, limit, Started(table, checkpoint), events[..m]).Of(w).Finished?
    ensures Converged(rules, Execute(rules, limit, Started(table, checkpoint), events).table)
  {
    StartedInv(rules, table, checkpoint);
    ConvergedEverAfter(rules, limit, Started(table, checkpoint), events, m, w);
  }

  /** From any true checkpoint, once some worker has finished after `m` events and whatever
      happens then: verification is terminal, and reading with the current key alone and no
      legacy handler gives every row exactly the value the permissive reader would have
      given had no sweep run and only the other writers' changes been made. */
  lemma {:induction false} StrictReadsAfterSweep<R(!new), V(!new)>(
    p: Planner<R, V>, limit: nat, table: Table<R>, checkpoint: Option<int>, events: seq<Event<R>>, m: nat, w: nat)
    requires Sound(p, limit, table, checkpoint, events, m)
    requires UpdatesLandWell(Rules(p), limit, Started(table, checkpoint), events)
    requires Execute(Rules(p), limit, Started(table, checkpoint), events[..m]).Of(w).Finished?
    ensures var swept := Execute(Rules(p), limit, Started(table, checkpoint), events).table;
            && Verification(Rules(p), swept) == Ok(NO_ROWS.(current := |swept|))
            && StrictValues(p, swept) == ForeignOnly(Rules(p), Values(Rules(p), table), events)
  {
    RulesAreLawful(p);
    ConvergedFromTheStart(Rules(p), limit, table, checkpoint, events, m, w);
    NothingIsLost(Rules(p), limit, Started(table, checkpoint), events);
    TerminalExactly(Rules(p), Execute(Rules(p), limit, Started(table, checkpoint), events).table);
    ConvergedReadsStrictly(p, Rules(p), Execute(Rules(p), limit, Started(table, checkpoint), events).table);
  }

  /** Among writers of current rows alone nothing more is asked, of record IDs or
      otherwise. */
  lemma {:induction false} StrictReadsAmongCurrentWriters<R(!new), V(!new)>(
    p: Planner<R, V>, limit: nat, table: Table<R>, checkpoint: Option<int>, events: seq<Event<R>>, m: nat, w: nat)
    requires Sound(p, limit, table, checkpoint, events, m) && CurrentWriters(Rules(p), events)
    requires Execute(Rules(p), limit, Started(table, checkpoint), events[..m]).Of(w).Finished?
    ensures var swept := Execute(Rules(p), limit, Started(table, checkpoint), events).table;
            && Verification(Rules(p), swept) == Ok(NO_ROWS.(current := |swept|))
            && StrictValues(p, swept) == ForeignOnly(Rules(p), Values(Rules(p), table), events)
  {
    RulesAreLawful(p);
    CurrentWritersLandWell(Rules(p), limit, table, checkpoint, events);
    StrictReadsAfterSweep(p, limit, table, checkpoint, events, m, w);
  }

  // ----- What verification aborts on -----

  /** Index keys that are missing are reported as not configured. */
  ghost predicate KeysOrNone<R, V>(p: Planner<R, V>) {
    forall i :: 0 <= i < |p.indexes| ==> p.indexes[i].keys.Ok? || p.indexes[i].keys == Err(BlindIndexKeysNotConfigured)
  }

  /** The row's envelope is current, and the first of its indexes that is not of a current
      key parses but belongs to a column without keys. */
  ghost predicate ReachesMissingKeys<R, V>(p: Planner<R, V>, row: StoredRow<R>)
    requires |row.indexes| == |p.indexes|
  {
    && InspectCiphertext(row.ciphertext) == Ok(CurrentInfo(p, row.columns))
    && exists i: nat :: FirstNotCurrent(p.indexes, row.indexes, i) && IsMissingKeys(p.indexes[i], row.indexes[i])
  }

  predicate IsMissingKeys<V>(column: IndexColumn<V>, bytes: Bytes) {
    InspectBlindIndex(bytes).Ok? && column.keys.Err?
  }

  /** A row aborts a verification exactly if it has the wrong number of columns, or
      classifying it comes to need index keys that are missing; bad bytes alone never do. */
  lemma AbortsExactly<R, V>(p: Planner<R, V>, row: StoredRow<R>)
    requires p.Configured() && KeysOrNone(p)
    ensures Aborts(Rules(p), row) <==> |row.indexes| != |p.indexes| || ReachesMissingKeys(p, row)
  {
    ConfigurationErrors(BlindIndexKeysNotConfigured);
    if |row.indexes| != |p.indexes| {
      ConfigurationErrors(IndexColumnMismatch(|p.indexes|, |row.indexes|));
    } else if InspectCiphertext(row.ciphertext) == Ok(CurrentInfo(p, row.columns)) {
      IndexAborts(p, row);
    } else {
      EnvelopeNeverAborts(p, row);
    }
  }

  lemma IndexAborts<R, V>(p: Planner<R, V>, row: StoredRow<R>)
    requires p.Configured() && KeysOrNone(p) && |row.indexes| == |p.indexes|
    requires InspectCiphertext(row.ciphertext) == Ok(CurrentInfo(p, row.columns))
    ensures Aborts(Rules(p), row) <==> ReachesMissingKeys(p, row)
  {
    if AllOfCurrentKeys(p.indexes, row.indexes) {
      ClassifiesExactly(p, row, CurrentInfo(p, row.columns), 0);
      forall i: nat | i < |p.indexes|
        ensures !FirstNotCurrent(p.indexes, row.indexes, i)
      {
        assert IsOfCurrentKey(p.indexes[i], row.indexes[i]) == Ok(true);
      }
    } else {
      var i := FirstOfOtherKey(p.indexes, row.indexes);
      ClassifiesExactly(p, row, CurrentInfo(p, row.columns), i);
      IndexErrors(p.indexes[i], row.indexes[i]);
      forall j: nat | FirstNotCurrent(p.indexes, row.indexes, j)
        ensures j == i
      {
        OnlyOneIsFirst(p.indexes, row.indexes, i, j);
      }
    }
  }

  lemma OnlyOneIsFirst<V>(columns: seq<IndexColumn<V>>, indexes: seq<Bytes>, i: nat, j: nat)
    requires |columns| == |indexes|
    requires FirstNotCurrent(columns, indexes, i) && FirstNotCurrent(columns, indexes, j)
    ensures i == j
  {
  }

  lemma FirstOfOtherKey<V>(columns: seq<IndexColumn<V>>, indexes: seq<Bytes>) returns (i: nat)
    requires |columns| == |indexes| && !AllOfCurrentKeys(columns, indexes)
    ensures FirstNotCurrent(columns, indexes, i)
  {
    i := 0;
    while IsOfCurrentKey(columns[i], indexes[i]) == Ok(true)
      invariant i < |columns|
      invariant forall j :: 0 <= j < i ==> IsOfCurrentKey(columns[j], indexes[j]) == Ok(true)
      decreases |columns| - i
    {
      i := i + 1;
    }
  }

  lemma IndexErrors<V>(column: IndexColumn<V>, bytes: Bytes)
    requires column.keys.Ok? || column.keys == Err(BlindIndexKeysNotConfigured)
    ensures IsOfCurrentKey(column, bytes).Err? ==>
              (IsRowDataFailure(IsOfCurrentKey(column, bytes).error) <==> !IsMissingKeys(column, bytes))
  {
    ConfigurationErrors(BlindIndexKeysNotConfigured);
    if InspectBlindIndex(bytes).Err? {
      ConfigurationErrors(InspectBlindIndex(bytes).error);
    }
  }

  lemma EnvelopeNeverAborts<R, V>(p: Planner<R, V>, row: StoredRow<R>)
    requires p.Configured() && |row.indexes| == |p.indexes|
    requires InspectCiphertext(row.ciphertext) != Ok(CurrentInfo(p, row.columns))
    ensures !Aborts(Rules(p), row)
  {
    NotCiphertextExactly(row.ciphertext);
    ConfigurationErrors(ContextMismatch);
    match InspectCiphertext(row.ciphertext)
    case Err(error) =>
      ClassifiesExactly(p, row, CurrentInfo(p, row.columns), 0);
      ConfigurationErrors(error);
    case Ok(info) =>
      ClassifiesExactly(p, row, info, 0);
  }

  // ----- Search -----

  /** If sealed rows start consistent and other writers keep them so, every row of every
      reachable table is consistent: at no point of a sweep does an index stop matching
      its value. */
  lemma {:induction false} ConsistencyAlways<R(!new), V(!new)>(
    p: Planner<R, V>, limit: nat, s: State<R>, events: seq<Event<R>>, anchor: map<int, R>)
    requires Valid(p) && Anchored(s, anchor, Unwritten(Rules(p)))
    requires forall i :: 0 <= i < |events| ==> WritesInPlace(events[i], anchor, Unwritten(Rules(p)))
    requires forall i :: 0 <= i < |events| && events[i].Write? ==> IndexesConsistent(p, events[i].row)
    requires forall k :: k in s.table ==> IndexesConsistent(p, s.table[k])
    ensures var t := Execute(Rules(p), limit, s, events);
            forall k :: k in t.table ==> IndexesConsistent(p, t.table[k])
  {
    var rules := Rules(p);
    ghost var holds: StoredRow<R> -> bool := row => IndexesConsistent(p, row);
    RulesAreLawful(p);
    forall row, entropy
      ensures RewriteKeeps(rules, holds, row, entropy)
    {
      KeepsConsistency(p, rules, row, entropy);
    }
    forall i | 0 <= i < |events| && events[i].Write?
      ensures holds(events[i].row)
    {
    }
    RowsAlways(rules, limit, s, events, anchor, holds);
    var t := Execute(rules, limit, s, events);
    forall k | k in t.table
      ensures IndexesConsistent(p, t.table[k])
    {
      assert holds(t.table[k]);
    }
  }

  lemma KeepsConsistency<R(!new), V(!new)>(p: Planner<R, V>, rules: RowRules<R, V>, row: StoredRow<R>, entropy: Entropy)
    requires Valid(p) && rules == Rules(p)
    ensures var planned := rules.plan(row, entropy);
            planned.Ok? && planned.value.Rewrite? && IndexesConsistent(p, row) ==>
              IndexesConsistent(p, Written(row, planned.value.write))
  {
    if PlanRow(p, row, entropy).Ok? && PlanRow(p, row, entropy).value.Rewrite? && IndexesConsistent(p, row) {
      RewriteKeepsConsistency(p, row, entropy);
    }
  }

  /** A lookup over index column `i` during a migration, reading rows permissively. */
  function OpenLookup<R, V>(p: Planner<R, V>, i: nat): Lookup<StoredRow<R>, V, V>
    requires i < |p.indexes|
  {
    Lookup(row => ReadPermissive(p, row), value => Some(value), p.indexes[i].spec)
  }

  /** A lookup over index column `i`, reading rows strictly. */
  function LookupOf<R, V>(p: Planner<R, V>, i: nat): Lookup<StoredRow<R>, V, V>
    requires i < |p.indexes|
  {
    Lookup(row => ReadStrict(p, CurrentOnly(p.keys), row), value => Some(value), p.indexes[i].spec)
  }

  /** The rows a database selects: those whose index column holds any probe. */
  function Selected<R>(rows: seq<StoredRow<R>>, i: nat, probes: seq<Bytes>): seq<StoredRow<R>> {
    if rows == [] then [] else
    var before := Selected(rows[..|rows| - 1], i, probes);
    var last := rows[|rows| - 1];
    if i < |last.indexes| && last.indexes[i] in probes then before + [last] else before
  }

  lemma {:induction false} SelectedExactly<R>(rows: seq<StoredRow<R>>, i: nat, probes: seq<Bytes>, row: StoredRow<R>)
    ensures row in Selected(rows, i, probes) <==> row in rows && i < |row.indexes| && row.indexes[i] in probes
    decreases |rows|
  {
    if rows != [] {
      SelectedExactly(rows[..|rows| - 1], i, probes, row);
      assert rows == rows[..|rows| - 1] + [rows[|rows| - 1]];
    }
  }

  /** The index keys a lookup needs once previous ones are retired. */
  function CurrentIndexKeys(keys: Result<Ring>): (r: Result<Ring>)
    ensures r.Ok? <==> keys.Ok?
    ensures r.Ok? ==> r.value.keys == [keys.value.current]
  {
    var ring :- keys;
    Ok(CurrentOnly(ring))
  }

  /** In a converged, consistent row, the stored index is among the probes of every query
      that normalizes like its value, under the current index key alone. */
  lemma ProbedByCurrentKey<R, V(!new)>(p: Planner<R, V>, row: StoredRow<R>, i: nat, query: Result<Bytes>)
    requires Valid(p) && i < |p.indexes|
    requires ClassifyRow(p, row) == Ok(Current) && IndexesConsistent(p, row)
    requires ReadPermissive(p, row).Ok?
    requires query == p.indexes[i].spec.normalizeValue(ReadPermissive(p, row).value)
    ensures var probes := Probes(p.c, p.indexes[i].spec, query, CurrentIndexKeys(p.indexes[i].keys));
            |row.indexes| == |p.indexes| && probes.Ok? && row.indexes[i] in probes.value
  {
    var column, value := p.indexes[i], ReadPermissive(p, row).value;
    assert column.Valid();
    ConsistentCurrentIsDerived(p, row, i);
    ProbesFindIndex(p.c, column.spec, query, value, CurrentOnly(column.keys.value), column.keys.value.current);
  }

  /** What a lookup of `normalized` in index `i` finds among `rows`: probes under the
      current index key, a selection by the probes, and the matches among the selected. */
  function Found<R, V>(p: Planner<R, V>, rows: seq<StoredRow<R>>, i: nat, normalized: Bytes): seq<Result<V>>
    requires p.Configured() && i < |p.indexes|
  {
    var column := p.indexes[i];
    var probes := Probes(p.c, column.spec, Ok(normalized), CurrentIndexKeys(column.keys));
    Candidates(LookupOf(p, i), Ok(normalized), if probes.Ok? then Selected(rows, i, probes.value) else [])
  }

  /** Search is complete and exact. After a completed sweep, with only current keys:
      looking `normalized` up in index `i` finds a value exactly when some row of the
      table holds it and it normalizes alike. */
  lemma SearchIsExact<R(!new), V(!new)>(
    p: Planner<R, V>, rows: seq<StoredRow<R>>, i: nat, normalized: Bytes, value: V)
    requires Valid(p) && i < |p.indexes|
    requires forall row :: row in rows ==> ClassifyRow(p, row) == Ok(Current) && IndexesConsistent(p, row)
    ensures Ok(value) in Found(p, rows, i, normalized) <==>
              exists row :: row in rows && ReadPermissive(p, row) == Ok(value)
                            && p.indexes[i].spec.normalizeValue(value) == Ok(normalized)
  {
    if Ok(value) in Found(p, rows, i, normalized) {
      FoundIsStored(p, rows, i, normalized, value);
    }
    if row :| row in rows && ReadPermissive(p, row) == Ok(value)
              && p.indexes[i].spec.normalizeValue(value) == Ok(normalized) {
      StoredIsFound(p, rows, i, normalized, value, row);
    }
  }

  lemma FoundIsStored<R, V>(
    p: Planner<R, V>, rows: seq<StoredRow<R>>, i: nat, normalized: Bytes, value: V)
    requires p.Configured() && p.keys.Valid() && i < |p.indexes|
    requires forall row :: row in rows ==> ClassifyRow(p, row) == Ok(Current)
    requires Ok(value) in Found(p, rows, i, normalized)
    ensures exists row :: row in rows && ReadPermissive(p, row) == Ok(value)
                          && p.indexes[i].spec.normalizeValue(value) == Ok(normalized)
  {
    var probes := Probes(p.c, p.indexes[i].spec, Ok(normalized), CurrentIndexKeys(p.indexes[i].keys));
    var found := if probes.Ok? then Selected(rows, i, probes.value) else [];
    HitsAreMatches(LookupOf(p, i), normalized, found, value);
    var j :| 0 <= j < |found| && IsMatch(LookupOf(p, i), normalized, found[j], value);
    SelectedExactly(rows, i, probes.value, found[j]);
    StrictReadOfCurrent(p, found[j]);
    assert found[j] in rows;
  }

  lemma {:induction false} SelectedIsFound<S, V>(
    at: Lookup<S, V, V>, normalized: Bytes, selected: seq<S>, row: S, value: V)
    requires row in selected && IsMatch(at, normalized, row, value)
    ensures Ok(value) in Candidates(at, Ok(normalized), selected)
  {
    var j :| 0 <= j < |selected| && selected[j] == row;
    MatchIsFound(at, normalized, selected, j, value);
  }

  lemma StoredIsFound<R, V(!new)>(
    p: Planner<R, V>, rows: seq<StoredRow<R>>, i: nat, normalized: Bytes, value: V, row: StoredRow<R>)
    requires Valid(p) && i < |p.indexes|
    requires row in rows && ClassifyRow(p, row) == Ok(Current) && IndexesConsistent(p, row)
    requires ReadPermissive(p, row) == Ok(value)
    requires p.indexes[i].spec.normalizeValue(value) == Ok(normalized)
    ensures Ok(value) in Found(p, rows, i, normalized)
  {
    var probes := Probes(p.c, p.indexes[i].spec, Ok(normalized), CurrentIndexKeys(p.indexes[i].keys));
    ProbedByCurrentKey(p, row, i, Ok(normalized));
    SelectedExactly(rows, i, probes.value, row);
    StrictReadOfCurrent(p, row);
    SelectedIsFound(LookupOf(p, i), normalized, Selected(rows, i, probes.value), row, value);
  }

  ghost predicate Stores<R>(table: Table<R>, row: StoredRow<R>) {
    exists k :: k in table && table[k] == row
  }

  /** What a lookup finds with every readable index key, while rows are migrating. */
  function FoundDuring<R, V>(p: Planner<R, V>, rows: seq<StoredRow<R>>, i: nat, normalized: Bytes): seq<Result<V>>
    requires p.Configured() && i < |p.indexes|
  {
    var probes := Probes(p.c, p.indexes[i].spec, Ok(normalized), p.indexes[i].keys);
    Candidates(OpenLookup(p, i), Ok(normalized), if probes.Ok? then Selected(rows, i, probes.value) else [])
  }

  /** Whichever key generation its index has, a sealed consistent row is found by every
      query that normalizes like its value. */
  lemma SealedIsFound<R, V(!new)>(
    p: Planner<R, V>, rows: seq<StoredRow<R>>, i: nat, normalized: Bytes, value: V, row: StoredRow<R>)
    requires Valid(p) && i < |p.indexes|
    requires row in rows && InspectCiphertext(row.ciphertext).Ok? && IndexesConsistent(p, row)
    requires ReadPermissive(p, row) == Ok(value)
    requires p.indexes[i].spec.normalizeValue(value) == Ok(normalized)
    ensures Ok(value) in FoundDuring(p, rows, i, normalized)
  {
    var column := p.indexes[i];
    assert column.Valid() && IndexMatches(p.c, column, row.indexes[i], value);
    var key :| key in column.keys.value.keys && DeriveWithKey(p.c, column.spec, value, key) == Ok(row.indexes[i]);
    ProbesFindIndex(p.c, column.spec, Ok(normalized), value, column.keys.value, key);
    var probes := Probes(p.c, column.spec, Ok(normalized), column.keys);
    SelectedExactly(rows, i, probes.value, row);
    SelectedIsFound(OpenLookup(p, i), normalized, Selected(rows, i, probes.value), row, value);
  }

  /** What is found is stored, and normalizes to the query. */
  lemma FoundDuringIsStored<R, V>(
    p: Planner<R, V>, rows: seq<StoredRow<R>>, i: nat, normalized: Bytes, value: V)
    requires p.Configured() && i < |p.indexes|
    requires Ok(value) in FoundDuring(p, rows, i, normalized)
    ensures exists row :: row in rows && ReadPermissive(p, row) == Ok(value)
                          && p.indexes[i].spec.normalizeValue(value) == Ok(normalized)
  {
    var probes := Probes(p.c, p.indexes[i].spec, Ok(normalized), p.indexes[i].keys);
    var found := if probes.Ok? then Selected(rows, i, probes.value) else [];
    HitsAreMatches(OpenLookup(p, i), normalized, found, value);
    var j :| 0 <= j < |found| && IsMatch(OpenLookup(p, i), normalized, found[j], value);
    SelectedExactly(rows, i, probes.value, found[j]);
    assert found[j] in rows;
  }

  /** Search misses nothing at any moment of a sweep: in every reachable table a sealed
      row is found by every query that normalizes like its value, with all readable keys. */
  lemma {:induction false} SearchDuringSweep<R(!new), V(!new)>(
    p: Planner<R, V>, limit: nat, s: State<R>, events: seq<Event<R>>, anchor: map<int, R>,
    rows: seq<StoredRow<R>>, k: int, i: nat, normalized: Bytes, value: V)
    requires Valid(p) && i < |p.indexes| && Anchored(s, anchor, Unwritten(Rules(p)))
    requires forall j :: 0 <= j < |events| ==> WritesInPlace(events[j], anchor, Unwritten(Rules(p)))
    requires forall j :: 0 <= j < |events| && events[j].Write? ==> IndexesConsistent(p, events[j].row)
    requires forall j :: j in s.table ==> IndexesConsistent(p, s.table[j])
    requires k in Execute(Rules(p), limit, s, events).table
    requires Execute(Rules(p), limit, s, events).table[k] in rows
    requires InspectCiphertext(Execute(Rules(p), limit, s, events).table[k].ciphertext).Ok?
    requires ReadPermissive(p, Execute(Rules(p), limit, s, events).table[k]) == Ok(value)
    requires p.indexes[i].spec.normalizeValue(value) == Ok(normalized)
    ensures Ok(value) in FoundDuring(p, rows, i, normalized)
  {
    var row := Execute(Rules(p), limit, s, events).table[k];
    ConsistencyAlways(p, limit, s, events, anchor);
    SealedIsFound(p, rows, i, normalized, value, row);
  }

  /** The whole migration, seen by a search: if sealed rows start with indexes consistent
      with their values and other writers keep that, then once some worker has finished,
      and ever after, a search with current keys alone finds exactly the values stored. */
  lemma {:induction false} SearchAfterSweep<R(!new), V(!new)>(
    p: Planner<R, V>, limit: nat, table: Table<R>, checkpoint: Option<int>, events: seq<Event<R>>, m: nat, w: nat,
    anchor: map<int, R>, rows: seq<StoredRow<R>>, i: nat, normalized: Bytes, value: V)
    requires Sound(p, limit, table, checkpoint, events, m) && i < |p.indexes|
    requires Kept(table, events, anchor, Unwritten(Rules(p)))
    requires forall j :: 0 <= j < |events| && events[j].Write? ==> IndexesConsistent(p, events[j].row)
    requires forall k :: k in table ==> IndexesConsistent(p, table[k])
    requires Execute(Rules(p), limit, Started(table, checkpoint), events[..m]).Of(w).Finished?
    requires forall row :: row in rows ==>
               Stores(Execute(Rules(p), limit, Started(table, checkpoint), events).table, row)
    ensures Ok(value) in Found(p, rows, i, normalized) <==>
              exists row :: row in rows && ReadPermissive(p, row) == Ok(value)
                            && p.indexes[i].spec.normalizeValue(value) == Ok(normalized)
  {
    SweptRows(p, limit, table, checkpoint, events, m, w, anchor, rows);
    SearchIsExact(p, rows, i, normalized, value);
  }

  lemma {:induction false} SweptRows<R(!new), V(!new)>(
    p: Planner<R, V>, limit: nat, table: Table<R>, checkpoint: Option<int>, events: seq<Event<R>>, m: nat, w: nat,
    anchor: map<int, R>, rows: seq<StoredRow<R>>)
    requires Sound(p, limit, table, checkpoint, events, m)
    requires Kept(table, events, anchor, Unwritten(Rules(p)))
    requires forall j :: 0 <= j < |events| && events[j].Write? ==> IndexesConsistent(p, events[j].row)
    requires forall k :: k in table ==> IndexesConsistent(p, table[k])
    requires Execute(Rules(p), limit, Started(table, checkpoint), events[..m]).Of(w).Finished?
    requires forall row :: row in rows ==>
               Stores(Execute(Rules(p), limit, Started(table, checkpoint), events).table, row)
    ensures forall row :: row in rows ==> ClassifyRow(p, row) == Ok(Current) && IndexesConsistent(p, row)
  {
    var rules := Rules(p);
    ghost var holds: StoredRow<R> -> bool := row => IndexesConsistent(p, row);
    RulesAreLawful(p);
    forall row, entropy
      ensures RewriteKeeps(rules, holds, row, entropy)
    {
      KeepsConsistency(p, rules, row, entropy);
    }
    ConvergedFromTheStart(rules, limit, table, checkpoint, events, m, w);
    SweptRowsHold(rules, limit, table, checkpoint, events, anchor, holds, rows);
    forall row | row in rows
      ensures ClassifyRow(p, row) == Ok(Current) && IndexesConsistent(p, row)
    {
      assert holds(row) && IsCurrent(rules, row);
    }
  }

  lemma {:induction false} SweptRowsHold<R(!new), V>(
    rules: RowRules<R, V>, limit: nat, table: Table<R>, checkpoint: Option<int>, events: seq<Event<R>>,
    anchor: map<int, R>, holds: StoredRow<R> -> bool, rows: seq<StoredRow<R>>)
    requires Lawful(rules) && Kept(table, events, anchor, Unwritten(rules))
    requires forall k :: k in table ==> holds(table[k])
    requires forall j :: 0 <= j < |events| && events[j].Write? ==> holds(events[j].row)
    requires forall row, entropy :: RewriteKeeps(rules, holds, row, entropy)
    requires Converged(rules, Execute(rules, limit, Started(table, checkpoint), events).table)
    requires forall row :: row in rows ==> Stores(Execute(rules, limit, Started(table, checkpoint), events).table, row)
    ensures forall row :: row in rows ==> IsCurrent(rules, row) && holds(row)
  {
    var s := Execute(rules, limit, Started(table, checkpoint), events);
    assert Anchored(Started(table, checkpoint), anchor, Unwritten(rules));
    RowsAlways(rules, limit, Started(table, checkpoint), events, anchor, holds);
    forall row | row in rows
      ensures IsCurrent(rules, row) && holds(row)
    {
      assert Stores(s.table, row);
      var k :| k in s.table && s.table[k] == row;
      assert holds(s.table[k]);
    }
  }
}
