/** The row planner (src/migrate/row.rs) and the permissive reader of a migration
    window (src/migrate/read.rs), over stored bytes. */
module Rows {
  import opened Bytes

  /** What a database holds of a row: record-ID columns, the encrypted column, and the
      blind-index columns in planner order. */
  datatype StoredRow<+R> = StoredRow(columns: R, ciphertext: Bytes, indexes: seq<Bytes>)

  datatype RowState = Current | Stale | Legacy

  datatype RowWrite = RowWrite(ciphertext: Bytes, indexes: seq<Bytes>)

  datatype RowOutcome = Unchanged(state: RowState) | Rewrite(state: RowState, write: RowWrite)

  /** `row` with the replacement bytes written; its columns stay. */
  function Written<R>(row: StoredRow<R>, write: RowWrite): StoredRow<R> {
    StoredRow(row.columns, write.ciphertext, write.indexes)
  }
}

module RowPlanner {
  import opened BlindFormat
  import opened BlindIndexes
  import opened Bytes
  import opened Crypto
  import opened EnvelopeFormat
  import opened Envelopes
  import opened Keyrings
  import opened PaddingPolicy
  import opened Rows
  import opened SealContexts
  import opened Wrappers

  /** A blind-index column; its keys may be absent, and report that on every row. */
  datatype IndexColumn<!V> = IndexColumn(spec: IndexSpec<V>, keys: Result<Ring>) {
    function IsStale(bytes: Bytes): Result<bool> {
      var info :- InspectBlindIndex(bytes);
      var ring :- keys;
      Ok(info.keyId != ring.current.id)
    }

    function Derive(c: Primitives, value: V): Result<Bytes>
      requires ValidBits(spec.bits)
    {
      DeriveValue(c, spec, value, keys)
    }

    ghost predicate Valid() {
      && ValidBits(spec.bits)
      && (keys.Ok? ==> keys.value.Valid())
    }
  }

  /** The configuration of a migration: how values are encoded, sealed, read, and indexed. */
  datatype Planner<!R, !V> = Planner(
    c: Primitives,
    keys: Ring,
    sealId: Id,
    padding: Padding,
    encode: V -> Result<Bytes>,
    decode: Bytes -> Result<V>,
    recordId: R -> Option<RecordValue>,
    legacy: Option<Bytes -> Result<Bytes>>,
    indexes: seq<IndexColumn<V>>)
  {
    /** The planner's static checks, which the compiler enforces. */
    ghost predicate Configured() {
      && padding.Valid()
      && forall column :: column in indexes ==> ValidBits(column.spec.bits)
    }

    function ContextOf(columns: R): Context {
      NewContext(sealId, recordId(columns))
    }
  }

  /** Lawful primitives, well-formed configuration, and a codec that decodes what it
      encodes: the premises of the planner's laws. */
  ghost predicate Valid<R, V(!new)>(p: Planner<R, V>) {
    && p.Configured()
    && p.c.Lawful()
    && p.keys.Valid()
    && (forall column :: column in p.indexes ==> column.Valid())
    && (forall value :: p.encode(value).Ok? ==> p.decode(p.encode(value).value) == Ok(value))
  }

  // ----- Classification -----

  function AnyStale<V>(columns: seq<IndexColumn<V>>, indexes: seq<Bytes>): Result<bool>
    requires |columns| == |indexes|
  {
    if columns == [] then Ok(false) else
    var stale :- columns[0].IsStale(indexes[0]);
    if stale then Ok(true) else AnyStale(columns[1..], indexes[1..])
  }

  function ClassifySealed<R, V>(p: Planner<R, V>, row: StoredRow<R>, needsReseal: Result<bool>): Result<RowState>
    requires |row.indexes| == |p.indexes|
  {
    var envelopeIsStale :- needsReseal;
    if envelopeIsStale then Ok(Stale) else
    var indexesAreStale :- AnyStale(p.indexes, row.indexes);
    Ok(if indexesAreStale then Stale else Current)
  }

  /** A row's state, from metadata alone; nothing is decrypted. The first component that
      is not current decides. */
  function ClassifyRow<R, V>(p: Planner<R, V>, row: StoredRow<R>): Result<RowState> {
    if |row.indexes| != |p.indexes| then Err(IndexColumnMismatch(|p.indexes|, |row.indexes|)) else
    match InspectCiphertext(row.ciphertext)
    case Err(NotCiphertext) => Ok(Legacy)
    case Err(error) => Err(error)
    case Ok(_) =>
      ClassifySealed(p, row, NeedsReseal(p.ContextOf(row.columns).fingerprint, p.padding, row.ciphertext, p.keys))
  }

  // ----- Planning -----

  function StaleColumns<V>(columns: seq<IndexColumn<V>>, indexes: seq<Bytes>): (r: Result<seq<bool>>)
    requires |columns| == |indexes|
    ensures r.Ok? ==> |r.value| == |columns|
  {
    if columns == [] then Ok([]) else
    var stale :- columns[0].IsStale(indexes[0]);
    var others :- StaleColumns(columns[1..], indexes[1..]);
    Ok([stale] + others)
  }

  function DeriveAll<V>(c: Primitives, columns: seq<IndexColumn<V>>, value: V): (r: Result<seq<Bytes>>)
    requires forall column :: column in columns ==> ValidBits(column.spec.bits)
    ensures r.Ok? ==> |r.value| == |columns|
  {
    if columns == [] then Ok([]) else
    var first :- columns[0].Derive(c, value);
    var others :- DeriveAll(c, columns[1..], value);
    Ok([first] + others)
  }

  /** Stale columns are re-derived; current ones keep their bytes verbatim. */
  function ReplaceStale<V>(
    c: Primitives, columns: seq<IndexColumn<V>>, indexes: seq<Bytes>, stale: seq<bool>,
    value: V): (r: Result<seq<Bytes>>)
    requires |columns| == |indexes| == |stale|
    requires forall column :: column in columns ==> ValidBits(column.spec.bits)
    ensures r.Ok? ==> |r.value| == |columns|
  {
    if columns == [] then Ok([]) else
    var first :- if stale[0] then columns[0].Derive(c, value) else Ok(indexes[0]);
    var others :- ReplaceStale(c, columns[1..], indexes[1..], stale[1..], value);
    Ok([first] + others)
  }

  function Recover<R, V>(p: Planner<R, V>, bytes: Bytes): Result<Bytes> {
    match p.legacy
    case None => Ok(bytes)
    case Some(recover) => recover(bytes)
  }

  function PlanLegacyRow<R, V>(p: Planner<R, V>, context: Context, bytes: Bytes, entropy: Entropy): Result<RowOutcome>
    requires p.Configured()
  {
    var recovered :- Recover(p, bytes);
    var value :- p.decode(recovered);
    var plaintext :- p.encode(value);
    var ciphertext :- Seal(p.c, context, p.padding, plaintext, p.keys, entropy);
    var indexes :- DeriveAll(p.c, p.indexes, value);
    Ok(Rewrite(Legacy, RowWrite(ciphertext, indexes)))
  }

  /** The plaintext of an envelope, and the envelope to keep: a fresh one if it is
      stale, else its own bytes. */
  function Refresh<R, V>(
    p: Planner<R, V>, context: Context, ciphertext: Bytes, stale: bool, entropy: Entropy): Result<Resealed>
    requires p.padding.Valid()
  {
    if stale then Reseal(p.c, context, p.keys, context, p.keys, p.padding, ciphertext, entropy) else
    var plaintext :- Open(p.c, context, ciphertext, p.keys);
    Ok(Resealed(plaintext, ciphertext))
  }

  /** Index bytes come from the decrypted value, never from stored index metadata, and
      the value is decoded only when an index needs it. */
  function RefreshIndexes<R, V>(
    p: Planner<R, V>, indexes: seq<Bytes>, stale: seq<bool>, plaintext: Bytes): Result<seq<Bytes>>
    requires p.Configured() && |p.indexes| == |indexes| == |stale|
  {
    if true !in stale then Ok(indexes) else
    var value :- p.decode(plaintext);
    ReplaceStale(p.c, p.indexes, indexes, stale, value)
  }

  function PlanStaleRow<R, V>(
    p: Planner<R, V>, context: Context, row: StoredRow<R>, envelopeIsStale: bool, staleColumns: seq<bool>,
    entropy: Entropy): Result<RowOutcome>
    requires p.Configured() && |p.indexes| == |row.indexes| == |staleColumns|
  {
    var refreshed :- Refresh(p, context, row.ciphertext, envelopeIsStale, entropy);
    var indexes :- RefreshIndexes(p, row.indexes, staleColumns, refreshed.plaintext);
    Ok(Rewrite(Stale, RowWrite(refreshed.ciphertext, indexes)))
  }

  function PlanSealed<R, V>(
    p: Planner<R, V>, context: Context, row: StoredRow<R>, needsReseal: Result<bool>,
    entropy: Entropy): Result<RowOutcome>
    requires p.Configured() && |p.indexes| == |row.indexes|
  {
    var envelopeIsStale :- needsReseal;
    var staleColumns :- StaleColumns(p.indexes, row.indexes);
    if !envelopeIsStale && true !in staleColumns then Ok(Unchanged(Current))
    else PlanStaleRow(p, context, row, envelopeIsStale, staleColumns, entropy)
  }

  function PlanRow<R, V>(p: Planner<R, V>, row: StoredRow<R>, entropy: Entropy): Result<RowOutcome>
    requires p.Configured()
  {
    if |row.indexes| != |p.indexes| then Err(IndexColumnMismatch(|p.indexes|, |row.indexes|)) else
    var context := p.ContextOf(row.columns);
    match InspectCiphertext(row.ciphertext)
    case Err(NotCiphertext) => PlanLegacyRow(p, context, row.ciphertext, entropy)
    case Err(error) => Err(error)
    case Ok(_) =>
      PlanSealed(p, context, row, NeedsReseal(context.fingerprint, p.padding, row.ciphertext, p.keys), entropy)
  }

  // ----- Reading during a migration -----

  /** The permissive read: legacy bytes are recovered, envelopes are opened with every
      readable key, and malformed envelopes are errors, never legacy data. */
  function ReadPermissive<R, V>(p: Planner<R, V>, row: StoredRow<R>): Result<V> {
    match InspectCiphertext(row.ciphertext)
    case Err(NotCiphertext) =>
      var recovered :- Recover(p, row.ciphertext);
      p.decode(recovered)
    case Err(error) => Err(error)
    case Ok(_) =>
      var plaintext :- Open(p.c, p.ContextOf(row.columns), row.ciphertext, p.keys);
      p.decode(plaintext)
  }

  /** The strict read of the steady state, with `keyring` and no legacy handler. */
  function ReadStrict<R, V>(p: Planner<R, V>, keyring: Ring, row: StoredRow<R>): Result<V> {
    var _ :- InspectCiphertext(row.ciphertext);
    var plaintext :- Open(p.c, p.ContextOf(row.columns), row.ciphertext, keyring);
    p.decode(plaintext)
  }

  // ----- The loops -----

  method FindStaleColumns<V>(columns: seq<IndexColumn<V>>, indexes: seq<Bytes>) returns (r: Result<seq<bool>>)
    requires |columns| == |indexes|
    ensures r == StaleColumns(columns, indexes)
  {
    var flags: seq<bool> := [];
    var i := 0;
    assert columns[0..] == columns && indexes[0..] == indexes;
    PrependNothing(StaleColumns(columns, indexes));
    while i < |columns|
      invariant 0 <= i <= |columns|
      invariant StaleColumns(columns, indexes) == Prepend(flags, StaleColumns(columns[i..], indexes[i..]))
    {
      var stale := columns[i].IsStale(indexes[i]);
      if stale.Err? {
        return Err(stale.error);
      }
      assert columns[i..][1..] == columns[i + 1..] && indexes[i..][1..] == indexes[i + 1..];
      PrependStep(flags, stale.value, StaleColumns(columns[i + 1..], indexes[i + 1..]));
      flags := flags + [stale.value];
      i := i + 1;
    }
    assert flags + [] == flags;
    return Ok(flags);
  }

  method DeriveReplacements<V>(
    c: Primitives, columns: seq<IndexColumn<V>>, indexes: seq<Bytes>, stale: seq<bool>, value: V)
    returns (r: Result<seq<Bytes>>)
    requires |columns| == |indexes| == |stale|
    requires forall column :: column in columns ==> ValidBits(column.spec.bits)
    ensures r == ReplaceStale(c, columns, indexes, stale, value)
  {
    var replacements: seq<Bytes> := [];
    var i := 0;
    assert columns[0..] == columns && indexes[0..] == indexes && stale[0..] == stale;
    PrependNothing(ReplaceStale(c, columns, indexes, stale, value));
    while i < |columns|
      invariant 0 <= i <= |columns|
      invariant ReplaceStale(c, columns, indexes, stale, value)
             == Prepend(replacements, ReplaceStale(c, columns[i..], indexes[i..], stale[i..], value))
    {
      var replacement := if stale[i] then columns[i].Derive(c, value) else Ok(indexes[i]);
      if replacement.Err? {
        return Err(replacement.error);
      }
      assert columns[i..][1..] == columns[i + 1..] && indexes[i..][1..] == indexes[i + 1..]
          && stale[i..][1..] == stale[i + 1..];
      PrependStep(replacements, replacement.value,
        ReplaceStale(c, columns[i + 1..], indexes[i + 1..], stale[i + 1..], value));
      replacements := replacements + [replacement.value];
      i := i + 1;
    }
    assert replacements + [] == replacements;
    return Ok(replacements);
  }

  ghost function Prepend<T>(done: seq<T>, rest: Result<seq<T>>): Result<seq<T>> {
    match rest
    case Err(error) => Err(error)
    case Ok(rest) => Ok(done + rest)
  }

  lemma PrependNothing<T>(rest: Result<seq<T>>)
    ensures Prepend([], rest) == rest
  {
    if rest.Ok? {
      assert [] + rest.value == rest.value;
    }
  }

  lemma PrependStep<T>(done: seq<T>, next: T, rest: Result<seq<T>>)
    ensures Prepend(done + [next], rest) == Prepend(done, Prepend([next], rest))
  {
    if rest.Ok? {
      assert done + [next] + rest.value == done + ([next] + rest.value);
    }
  }

  /** Plans one row as the sweep calls it. */
  method Plan<R, V>(p: Planner<R, V>, row: StoredRow<R>, entropy: Entropy) returns (r: Result<RowOutcome>)
    requires p.Configured()
    ensures r == PlanRow(p, row, entropy)
  {
    if |row.indexes| != |p.indexes| {
      return Err(IndexColumnMismatch(|p.indexes|, |row.indexes|));
    }
    var context := p.ContextOf(row.columns);
    var inspected := InspectCiphertext(row.ciphertext);
    if inspected == Err(NotCiphertext) {
      return PlanLegacyRow(p, context, row.ciphertext, entropy);
    } else if inspected.Err? {
      return Err(inspected.error);
    }
    var envelopeIsStale := NeedsReseal(context.fingerprint, p.padding, row.ciphertext, p.keys);
    if envelopeIsStale.Err? {
      return Err(envelopeIsStale.error);
    }
    var staleColumns := FindStaleColumns(p.indexes, row.indexes);
    if staleColumns.Err? {
      return Err(staleColumns.error);
    }
    var indexesAreStale := true in staleColumns.value;
    if !envelopeIsStale.value && !indexesAreStale {
      return Ok(Unchanged(Current));
    }
    var refreshed := Refresh(p, context, row.ciphertext, envelopeIsStale.value, entropy);
    if refreshed.Err? {
      return Err(refreshed.error);
    }
    var indexes := row.indexes;
    if indexesAreStale {
      var value := p.decode(refreshed.value.plaintext);
      if value.Err? {
        return Err(value.error);
      }
      var replacements := DeriveReplacements(p.c, p.indexes, row.indexes, staleColumns.value, value.value);
      if replacements.Err? {
        return Err(replacements.error);
      }
      indexes := replacements.value;
    }
    return Ok(Rewrite(Stale, RowWrite(refreshed.value.ciphertext, indexes)));
  }
}
