/** Searching records that `#[derive(Record)]` stored (derive/src/record.rs, src/record.rs):
    the index columns sealing emits are the ones a lookup probes for. */
module RecordSearch {
  import opened BlindFormat
  import opened BlindIndexes
  import opened Bytes
  import opened Crypto
  import opened Envelopes
  import opened Keyrings
  import opened RecordChecks
  import opened RecordImpl
  import opened Records
  import opened SealContexts
  import opened Wrappers

  /** Each index of a present value is its derivation under the current index key; an
      absent value has no index. */
  lemma {:induction false} IndexesEach<V>(
    c: Primitives, specs: seq<IndexSpec<V>>, value: Option<V>, keys: Result<Ring>)
    requires forall spec :: spec in specs ==> ValidBits(spec.bits)
    requires DeriveIndexes(c, specs, value, keys).Ok?
    ensures var indexes := DeriveIndexes(c, specs, value, keys).value;
            && |indexes| == |specs|
            && forall j :: 0 <= j < |specs| ==> IsIndex(c, specs[j], value, keys, indexes[j])
  {
    var indexes := DeriveIndexes(c, specs, value, keys).value;
    IndexCount(c, specs, value, keys, indexes);
    forall j | 0 <= j < |specs|
      ensures IsIndex(c, specs[j], value, keys, indexes[j])
    {
      IndexAt(c, specs, value, keys, indexes, j, specs[j]);
    }
  }

  predicate IsIndex<V>(c: Primitives, spec: IndexSpec<V>, value: Option<V>, keys: Result<Ring>, index: Option<Bytes>)
    requires ValidBits(spec.bits)
  {
    match value
    case None => index == None
    case Some(value) => index.Some? && DeriveValue(c, spec, value, keys) == Ok(index.value)
  }

  lemma {:induction false} IndexCount<V>(
    c: Primitives, specs: seq<IndexSpec<V>>, value: Option<V>, keys: Result<Ring>, indexes: seq<Option<Bytes>>)
    requires forall spec :: spec in specs ==> ValidBits(spec.bits)
    requires DeriveIndexes(c, specs, value, keys) == Ok(indexes)
    ensures |indexes| == |specs|
  {
    if specs != [] {
      IndexCount(c, specs[1..], value, keys, indexes[1..]);
    }
  }

  lemma {:induction false} IndexAt<V>(
    c: Primitives, specs: seq<IndexSpec<V>>, value: Option<V>, keys: Result<Ring>, indexes: seq<Option<Bytes>>,
    j: nat, spec: IndexSpec<V>)
    requires forall spec :: spec in specs ==> ValidBits(spec.bits)
    requires DeriveIndexes(c, specs, value, keys) == Ok(indexes)
    requires j < |specs| == |indexes| && specs[j] == spec
    ensures IsIndex(c, spec, value, keys, indexes[j])
    decreases |specs|
  {
    if j > 0 {
      IndexAt(c, specs[1..], value, keys, indexes[1..], j - 1, spec);
    }
  }

  /** What sealing stores of a sealed field. */
  lemma {:induction false} SealedColumns<V, P>(
    c: Primitives, d: Derived<V>, record: seq<Value<V, P>>, keys: Ring, indexKeys: Result<Ring>,
    entropy: nat -> Entropy, i: nat)
    requires d.Sound() && HasTypes(d.fields, record) && RecordIds(d.fields) != []
    requires i < |d.fields| && d.fields[i].role.Sealed?
    requires SealRecord(c, d, record, keys, indexKeys, entropy).Ok?
    ensures var stored := SealRecord(c, d, record, keys, indexKeys, entropy).value;
            && |stored| == |record| && stored[i].StoredSecret?
            && DeriveIndexes(c, d.seals[i].indexes, record[i].value, indexKeys) == Ok(stored[i].indexes)
  {
    var id := record[RecordIdField(d.fields)].id;
    var stored := SealRecord(c, d, record, keys, indexKeys, entropy).value;
    var sealing := k requires 0 <= k < |record| => SealField(c, d, k, record[k], id, keys, indexKeys, entropy(k));
    InOrderEach(|record|, sealing, stored);
    assert sealing(i) == Ok(stored[i]);
    FieldColumns(c, d, i, record[i], id, keys, indexKeys, entropy(i));
  }

  lemma {:induction false} FieldColumns<V, P>(
    c: Primitives, d: Derived<V>, i: nat, value: Value<V, P>, id: RecordValue, keys: Ring, indexKeys: Result<Ring>,
    entropy: Entropy)
    requires d.Sound() && i < |d.fields| && d.fields[i].role.Sealed? && HasType(d.fields[i], value)
    requires SealField(c, d, i, value, id, keys, indexKeys, entropy).Ok?
    ensures var stored := SealField(c, d, i, value, id, keys, indexKeys, entropy).value;
            stored.StoredSecret? && DeriveIndexes(c, d.seals[i].indexes, value.value, indexKeys) == Ok(stored.indexes)
  {
  }

  /** Reading stored records, and the value of field `i` that index `j` is over. Rust's
      types keep other rows out; here they are errors. */
  function LookupRecords<V, P>(
    c: Primitives, d: Derived<V>, i: nat, j: nat, reader: Ring): Lookup<seq<StoredValue<P>>, seq<Value<V, P>>, V>
    requires d.Sound() && RecordIds(d.fields) != [] && i < |d.seals| && j < |d.seals[i].indexes|
  {
    Lookup(
      (stored: seq<StoredValue<P>>) =>
        if StoredHasTypes(d.fields, stored) then OpenRecord(c, d, stored, reader) else Err(Internal),
      (record: seq<Value<V, P>>) => if i < |record| && record[i].Secret? then record[i].value else None,
      d.seals[i].indexes[j])
  }

  /** The index column of a sealed record is among the probes of every query that
      normalizes like the field's value, whichever readable key derived it. */
  lemma StoredIndexIsProbed<V, P>(
    c: Primitives, d: Derived<V>, record: seq<Value<V, P>>, keys: Ring, writer: Ring, entropy: nat -> Entropy,
    i: nat, j: nat, normalized: Bytes, indexReader: Ring)
    requires c.Lawful() && d.Sound() && HasTypes(d.fields, record) && RecordIds(d.fields) != []
    requires i < |d.fields| && d.fields[i].role.Sealed? && j < |d.seals[i].indexes|
    requires record[i].value.Some?
    requires d.seals[i].indexes[j].normalizeValue(record[i].value.value) == Ok(normalized)
    requires indexReader.Valid() && writer.current in indexReader.keys
    requires SealRecord(c, d, record, keys, Ok(writer), entropy).Ok?
    ensures var column := SealRecord(c, d, record, keys, Ok(writer), entropy).value[i];
            var probes := Probes(c, d.seals[i].indexes[j], Ok(normalized), Ok(indexReader));
            && column.StoredSecret? && j < |column.indexes| && column.indexes[j].Some?
            && probes.Ok? && column.indexes[j].value in probes.value
  {
    var spec, value := d.seals[i].indexes[j], record[i].value.value;
    assert spec in d.seals[i].indexes;
    SealedColumns(c, d, record, keys, Ok(writer), entropy, i);
    IndexesEach(c, d.seals[i].indexes, record[i].value, Ok(writer));
    assert IsIndex(c, spec, record[i].value, Ok(writer),
                   SealRecord(c, d, record, keys, Ok(writer), entropy).value[i].indexes[j]);
    assert DeriveValue(c, spec, value, Ok(writer)) == DeriveWithKey(c, spec, value, writer.current);
    ProbesFindIndex(c, spec, Ok(normalized), value, indexReader, writer.current);
  }

  /** And a lookup that selects it keeps it: opening the candidates yields the record. */
  lemma {:induction false} StoredRecordIsFound<V, P>(
    c: Primitives, d: Derived<V>, record: seq<Value<V, P>>, keys: Ring, indexKeys: Result<Ring>,
    entropy: nat -> Entropy, reader: Ring, i: nat, j: nat, normalized: Bytes, rows: seq<seq<StoredValue<P>>>)
    requires c.Lawful() && d.Sound() && WellFormed(d.fields)
    requires HasTypes(d.fields, record) && AllDecode(d, record)
    requires reader.Get(keys.current.id) == Some(keys.current)
    requires i < |d.fields| && d.fields[i].role.Sealed? && j < |d.seals[i].indexes|
    requires record[i].value.Some?
    requires d.seals[i].indexes[j].normalizeValue(record[i].value.value) == Ok(normalized)
    requires SealRecord(c, d, record, keys, indexKeys, entropy).Ok?
    requires SealRecord(c, d, record, keys, indexKeys, entropy).value in rows
    ensures Ok(record) in Candidates(LookupRecords(c, d, i, j, reader), Ok(normalized), rows)
  {
    var stored := SealRecord(c, d, record, keys, indexKeys, entropy).value;
    OpenOfSealIsIdentity(c, d, record, keys, indexKeys, entropy, reader);
    HitsAreMatches(LookupRecords(c, d, i, j, reader), normalized, rows, record);
    var k :| 0 <= k < |rows| && rows[k] == stored;
    assert IsMatch(LookupRecords(c, d, i, j, reader), normalized, rows[k], record);
  }

  /** Every record found is one that some row opens to, whose value matches the query. */
  lemma {:induction false} FoundRecordMatches<V, P>(
    c: Primitives, d: Derived<V>, reader: Ring, i: nat, j: nat, normalized: Bytes,
    rows: seq<seq<StoredValue<P>>>, record: seq<Value<V, P>>)
    requires d.Sound() && RecordIds(d.fields) != [] && i < |d.seals| && j < |d.seals[i].indexes|
    requires Ok(record) in Candidates(LookupRecords(c, d, i, j, reader), Ok(normalized), rows)
    ensures i < |record| && record[i].Secret? && record[i].value.Some?
    ensures d.seals[i].indexes[j].normalizeValue(record[i].value.value) == Ok(normalized)
    ensures exists k :: 0 <= k < |rows| && StoredHasTypes(d.fields, rows[k])
                        && OpenRecord(c, d, rows[k], reader) == Ok(record)
  {
    HitsAreMatches(LookupRecords(c, d, i, j, reader), normalized, rows, record);
    var k :| 0 <= k < |rows| && IsMatch(LookupRecords(c, d, i, j, reader), normalized, rows[k], record);
    assert StoredHasTypes(d.fields, rows[k]) && OpenRecord(c, d, rows[k], reader) == Ok(record);
  }
}
