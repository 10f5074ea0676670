/** What `#[derive(Record)]` binds (derive/src/record.rs): what each field of a stored record
    is, and that a ciphertext put into another field or another record does not open. */
module RecordBinding {
  import opened Binding
  import opened Bytes
  import opened Crypto
  import opened Envelopes
  import opened Keyrings
  import opened RecordChecks
  import opened RecordImpl
  import opened SealContexts
  import opened Wrappers

  /** Sealing stores each field for itself: the record ID and plaintext as they are, and a
      present secret as an envelope of its encoding, under the field's seal ID and the
      record's ID, with the randomness drawn for it. An absent one stores nothing. */
  lemma {:induction false} FieldsAreSealed<V, P>(
    c: Primitives, d: Derived<V>, record: seq<Value<V, P>>, keys: Ring, indexKeys: Result<Ring>,
    entropy: nat -> Entropy, at: nat, i: nat)
    requires d.Sound() && HasTypes(d.fields, record) && WellFormed(d.fields)
    requires at < |d.fields| && d.fields[at].role.RecordId? && i < |d.fields|
    requires SealRecord(c, d, record, keys, indexKeys, entropy).Ok?
    ensures |SealRecord(c, d, record, keys, indexKeys, entropy).value| == |record|
    ensures var stored := SealRecord(c, d, record, keys, indexKeys, entropy).value[i];
            var role, seal := d.fields[i].role, d.seals[i];
            && (role.RecordId? ==> stored == StoredId(record[i].id))
            && (role.Plaintext? ==> stored == StoredPlain(record[i].plain))
            && (role.Sealed? && record[i].value == None ==>
                  stored.StoredSecret? && stored.ciphertext == None
                  && DeriveIndexes(c, seal.indexes, None, indexKeys) == Ok(stored.indexes))
            && (role.Sealed? && record[i].value.Some? ==>
                  && stored.StoredSecret? && stored.ciphertext.Some? && seal.encode(record[i].value.value).Ok?
                  && Seal(c, NewContext(role.sealId, Some(record[at].id)), seal.padding,
                          seal.encode(record[i].value.value).value, keys, entropy(i)) == Ok(stored.ciphertext.value))
  {
    OneRecordId(d.fields, at, RecordIdField(d.fields));
    var id := record[RecordIdField(d.fields)].id;
    var stored := SealRecord(c, d, record, keys, indexKeys, entropy).value;
    var sealing := k requires 0 <= k < |record| => SealField(c, d, k, record[k], id, keys, indexKeys, entropy(k));
    InOrderEach(|record|, sealing, stored);
    assert sealing(i) == Ok(stored[i]);
    FieldIsSealed(c, d, i, record[i], id, keys, indexKeys, entropy(i));
  }

  lemma {:induction false} FieldIsSealed<V, P>(
    c: Primitives, d: Derived<V>, i: nat, value: Value<V, P>, id: RecordValue, keys: Ring, indexKeys: Result<Ring>,
    entropy: Entropy)
    requires d.Sound() && i < |d.fields| && HasType(d.fields[i], value)
    requires SealField(c, d, i, value, id, keys, indexKeys, entropy).Ok?
    ensures var stored := SealField(c, d, i, value, id, keys, indexKeys, entropy).value;
            var role, seal := d.fields[i].role, d.seals[i];
            && (role.RecordId? ==> stored == StoredId(value.id))
            && (role.Plaintext? ==> stored == StoredPlain(value.plain))
            && (role.Sealed? && value.value == None ==>
                  stored.StoredSecret? && stored.ciphertext == None
                  && DeriveIndexes(c, seal.indexes, None, indexKeys) == Ok(stored.indexes))
            && (role.Sealed? && value.value.Some? ==>
                  && stored.StoredSecret? && stored.ciphertext.Some? && seal.encode(value.value.value).Ok?
                  && Seal(c, NewContext(role.sealId, Some(id)), seal.padding, seal.encode(value.value.value).value,
                          keys, entropy) == Ok(stored.ciphertext.value))
  {
  }

  /** An accepted record has one record ID field. */
  lemma {:induction false} OneRecordId(fields: seq<Field>, i: nat, j: nat)
    requires |RecordIds(fields)| == 1
    requires i < |fields| && fields[i].role.RecordId? && j < |fields| && fields[j].role.RecordId?
    ensures i == j
  {
    if i < j {
      TwoRecordIds(fields, i, j);
    } else if j < i {
      TwoRecordIds(fields, j, i);
    }
  }

  lemma {:induction false} TwoRecordIds(fields: seq<Field>, i: nat, j: nat)
    requires i < j < |fields| && fields[i].role.RecordId? && fields[j].role.RecordId?
    ensures |RecordIds(fields)| >= 2
    decreases |fields|
  {
    var before := fields[..|fields| - 1];
    if j < |before| {
      TwoRecordIds(before, i, j);
    } else {
      SomeRecordId(before, i);
    }
  }

  lemma {:induction false} SomeRecordId(fields: seq<Field>, i: nat)
    requires i < |fields| && fields[i].role.RecordId?
    ensures |RecordIds(fields)| >= 1
    decreases |fields|
  {
    if i < |fields| - 1 {
      SomeRecordId(fields[..|fields| - 1], i);
    }
  }

  /** A ciphertext that belongs to field `i` of record `id` opens in no other field and in
      no other record: the field there reports exactly what authentication can tell, and
      opening the record fails. */
  lemma MovedCiphertextFails<V, P>(
    c: Primitives, log: set<Sealing>, d: Derived<V>, i: nat, id: RecordValue, ciphertext: Bytes,
    j: nat, stored: seq<StoredValue<P>>, at: nat, reader: Ring)
    requires c.Lawful() && d.Sound() && WellFormed(d.fields) && StoredHasTypes(d.fields, stored)
    requires i < |d.fields| && d.fields[i].role.Sealed? && j < |d.fields| && d.fields[j].role.Sealed?
    requires at < |d.fields| && d.fields[at].role.RecordId?
    requires i != j || id != stored[at].id
    requires stored[j].ciphertext == Some(ciphertext)
    requires Open(c, NewContext(d.fields[i].role.sealId, Some(id)), ciphertext, reader).Ok?
    requires OnlySealedFor(c, log, d.fields[i].role.sealId, Some(id), ciphertext)
    requires NotForged(c, log,
               Attempt(c, NewContext(d.fields[j].role.sealId, Some(stored[at].id)), ciphertext, reader))
    ensures OpenField<V, P>(c, d, j, stored[j], stored[at].id, reader)
         == Err(ErrorElsewhere(Some(id), Some(stored[at].id)))
    ensures OpenRecord(c, d, stored, reader).Err?
  {
    var to := stored[at].id;
    SealIdsDiffer(d.fields, i, j);
    FailsElsewhereExactly(c, log, d.fields[i].role.sealId, Some(id), d.fields[j].role.sealId, Some(to), ciphertext,
                          reader);
    assert stored[j] == StoredSecret(Some(ciphertext), stored[j].indexes);
    FieldReports<V, P>(c, d, j, ciphertext, stored[j].indexes, to, reader);
    FieldFailsRecord(c, d, stored, reader, at, j);
  }

  lemma FieldFailsRecord<V, P>(
    c: Primitives, d: Derived<V>, stored: seq<StoredValue<P>>, reader: Ring, at: nat, j: nat)
    requires d.Sound() && WellFormed(d.fields) && StoredHasTypes(d.fields, stored)
    requires at < |d.fields| && d.fields[at].role.RecordId? && j < |stored|
    requires OpenField<V, P>(c, d, j, stored[j], stored[at].id, reader).Err?
    ensures OpenRecord(c, d, stored, reader).Err?
  {
    OneRecordId(d.fields, at, RecordIdField(d.fields));
    var opening := k requires 0 <= k < |stored| => OpenField<V, P>(c, d, k, stored[k], stored[at].id, reader);
    InOrderFails(|stored|, opening, j);
  }

  // ----- The first failure is reported -----

  /** Statements run in field order, and the first that fails is the result. */
  lemma {:induction false} InOrderReports<T>(n: nat, field: nat --> Result<T>, i: nat)
    requires forall k :: 0 <= k < n ==> field.requires(k)
    requires i < n && field(i).Err? && forall k :: 0 <= k < i ==> field(k).Ok?
    ensures InOrder(n, field) == Err(field(i).error)
    decreases n
  {
    if i < n - 1 {
      InOrderReports(n - 1, field, i);
    } else {
      InOrderSucceeds(n - 1, field);
    }
  }

  lemma {:induction false} InOrderFails<T>(n: nat, field: nat --> Result<T>, i: nat)
    requires forall k :: 0 <= k < n ==> field.requires(k)
    requires i < n && field(i).Err?
    ensures InOrder(n, field).Err?
    decreases n
  {
    if i < n - 1 {
      InOrderFails(n - 1, field, i);
    }
  }

  lemma {:induction false} InOrderSucceeds<T>(n: nat, field: nat --> Result<T>)
    requires forall k :: 0 <= k < n ==> field.requires(k)
    requires forall k :: 0 <= k < n ==> field(k).Ok?
    ensures InOrder(n, field).Ok?
    decreases n
  {
    if n > 0 {
      InOrderSucceeds(n - 1, field);
    }
  }

  /** Opening a record reports its first field that does not open or decode. */
  lemma OpenReports<V, P>(c: Primitives, d: Derived<V>, stored: seq<StoredValue<P>>, reader: Ring, at: nat, i: nat)
    requires d.Sound() && WellFormed(d.fields) && StoredHasTypes(d.fields, stored)
    requires at < |d.fields| && d.fields[at].role.RecordId? && i < |stored|
    requires OpenField<V, P>(c, d, i, stored[i], stored[at].id, reader).Err?
    requires forall k :: 0 <= k < i ==> OpenField<V, P>(c, d, k, stored[k], stored[at].id, reader).Ok?
    ensures OpenRecord(c, d, stored, reader) == Err(OpenField<V, P>(c, d, i, stored[i], stored[at].id, reader).error)
  {
    OneRecordId(d.fields, at, RecordIdField(d.fields));
    var opening := k requires 0 <= k < |stored| => OpenField<V, P>(c, d, k, stored[k], stored[at].id, reader);
    InOrderReports(|stored|, opening, i);
  }

  /** A present secret is its envelope's plaintext, decoded, with the envelope's error or the
      codec's; an absent one is absent. */
  lemma FieldReports<V, P>(
    c: Primitives, d: Derived<V>, i: nat, ciphertext: Bytes, indexes: seq<Option<Bytes>>, id: RecordValue, reader: Ring)
    requires d.Sound() && i < |d.fields| && d.fields[i].role.Sealed?
    ensures var plaintext := Open(c, NewContext(d.fields[i].role.sealId, Some(id)), ciphertext, reader);
            var field := OpenField<V, P>(c, d, i, StoredSecret(Some(ciphertext), indexes), id, reader);
            && (plaintext.Err? ==> field == Err(plaintext.error))
            && (plaintext.Ok? && d.seals[i].decode(plaintext.value).Err? ==>
                  field == Err(d.seals[i].decode(plaintext.value).error))
            && (plaintext.Ok? && d.seals[i].decode(plaintext.value).Ok? ==>
                  field == Ok(Secret(Some(d.seals[i].decode(plaintext.value).value))))
    ensures OpenField<V, P>(c, d, i, StoredSecret(None, indexes), id, reader) == Ok(Secret(None))
  {
  }

  /** Sealing a field reports the codec's error, then the sealing's, then the first index's. */
  lemma {:induction false} SealFieldReports<V, P>(
    c: Primitives, d: Derived<V>, i: nat, value: V, id: RecordValue, keys: Ring, indexKeys: Result<Ring>,
    entropy: Entropy)
    requires d.Sound() && i < |d.fields| && d.fields[i].role.Sealed?
    ensures var encoded := d.seals[i].encode(value);
            var field := SealField<V, P>(c, d, i, Secret(Some(value)), id, keys, indexKeys, entropy);
            && (encoded.Err? ==> field == Err(encoded.error))
            && (encoded.Ok? ==>
                  var sealed := Seal(c, NewContext(d.fields[i].role.sealId, Some(id)), d.seals[i].padding,
                                     encoded.value, keys, entropy);
                  && (sealed.Err? ==> field == Err(sealed.error))
                  && (sealed.Ok? && DeriveIndexes(c, d.seals[i].indexes, Some(value), indexKeys).Err? ==>
                        field == Err(DeriveIndexes(c, d.seals[i].indexes, Some(value), indexKeys).error)))
  {
  }
}
