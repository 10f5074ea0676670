/** What the code `#[derive(Record)]` emits does (derive/src/record.rs): sealing a record
    field by field under its record ID, and opening its stored form. */
module RecordImpl {
  import opened BlindFormat
  import opened BlindIndexes
  import opened Bytes
  import opened Crypto
  import opened Envelopes
  import opened Keyrings
  import opened PaddingPolicy
  import opened RecordChecks
  import opened SealContexts
  import opened Wrappers

  /** How a field is sealed: padding policy, codec, and the indexes derived beside it. */
  datatype FieldSeal<!V> = FieldSeal(
    padding: Padding,
    encode: V -> Result<Bytes>,
    decode: Bytes -> Result<V>,
    indexes: seq<IndexSpec<V>>)

  /** A derived record: its checked fields and, for each, the seal its role gives it. */
  datatype Derived<!V> = Derived(fields: seq<Field>, seals: seq<FieldSeal<V>>) {
    /** A codec decodes what it encodes, and its constants compile. */
    ghost predicate Sound() {
      && |fields| == |seals|
      && forall i :: 0 <= i < |seals| ==>
           && seals[i].padding.Valid()
           && |seals[i].indexes| == |fields[i].Indexes()|
           && forall spec :: spec in seals[i].indexes ==> ValidBits(spec.bits)
    }

    ghost predicate Decodes(i: nat, value: V)
      requires i < |seals|
    {
      seals[i].encode(value).Ok? ==> seals[i].decode(seals[i].encode(value).value) == Ok(value)
    }
  }

  datatype Value<+V, +P> = IdOf(id: RecordValue) | Plain(plain: P) | Secret(value: Option<V>)

  datatype StoredValue<+P> =
    | StoredId(id: RecordValue)
    | StoredPlain(plain: P)
    | StoredSecret(ciphertext: Option<Bytes>, indexes: seq<Option<Bytes>>)

  /** A value has its field's type: an optional one may be absent. */
  predicate HasType<V, P>(field: Field, value: Value<V, P>) {
    match field.role
    case RecordId => value.IdOf?
    case Plaintext => value.Plain?
    case Sealed(_, _) => value.Secret? && (value.value.None? ==> field.optional)
  }

  predicate HasTypes<V, P>(fields: seq<Field>, record: seq<Value<V, P>>) {
    && |record| == |fields|
    && forall i :: 0 <= i < |fields| ==> HasType(fields[i], record[i])
  }

  predicate StoredHasType<P>(field: Field, stored: StoredValue<P>) {
    match field.role
    case RecordId => stored.StoredId?
    case Plaintext => stored.StoredPlain?
    case Sealed(_, _) => stored.StoredSecret?
  }

  predicate StoredHasTypes<P>(fields: seq<Field>, stored: seq<StoredValue<P>>) {
    && |stored| == |fields|
    && forall i :: 0 <= i < |fields| ==> StoredHasType(fields[i], stored[i])
  }

  /** The first field marked as the record ID. */
  function RecordIdField(fields: seq<Field>): (i: nat)
    requires RecordIds(fields) != []
    ensures i < |fields| && fields[i].role.RecordId?
    decreases |fields|
  {
    var before := fields[..|fields| - 1];
    if RecordIds(before) != [] then RecordIdField(before) else |fields| - 1
  }

  /** The emitted statements, one per field in order; the first error ends them. */
  function InOrder<T>(n: nat, field: nat --> Result<T>): (r: Result<seq<T>>)
    requires forall i :: 0 <= i < n ==> field.requires(i)
    ensures r.Ok? ==> |r.value| == n
  {
    if n == 0 then Ok([]) else
    var before :- InOrder(n - 1, field);
    var last :- field(n - 1);
    Ok(before + [last])
  }

  lemma {:induction false} InOrderEach<T>(n: nat, field: nat --> Result<T>, values: seq<T>)
    requires forall i :: 0 <= i < n ==> field.requires(i)
    requires |values| == n
    ensures InOrder(n, field) == Ok(values) <==> forall i :: 0 <= i < n ==> field(i) == Ok(values[i])
    decreases n
  {
    if n > 0 {
      var before := values[..n - 1];
      InOrderEach(n - 1, field, before);
      assert values == before + [values[n - 1]];
      if InOrder(n, field) == Ok(values) {
        assert values[..n - 1] == InOrder(n - 1, field).value;
      }
      assert forall i :: 0 <= i < n - 1 ==> before[i] == values[i];
    }
  }

  // ----- Sealing -----

  function DeriveIndexes<V>(
    c: Primitives, specs: seq<IndexSpec<V>>, value: Option<V>, keys: Result<Ring>): Result<seq<Option<Bytes>>>
    requires forall spec :: spec in specs ==> ValidBits(spec.bits)
  {
    if specs == [] then Ok([]) else
    var first :- match value
                 case None => Ok(None)
                 case Some(value) =>
                   (var index :- DeriveValue(c, specs[0], value, keys);
                    Ok(Some(index)));
    var others :- DeriveIndexes(c, specs[1..], value, keys);
    Ok([first] + others)
  }

  function SealValue<V>(
    c: Primitives, seal: FieldSeal<V>, context: Context, value: Option<V>, keys: Ring,
    entropy: Entropy): Result<Option<Bytes>>
    requires seal.padding.Valid()
  {
    match value
    case None => Ok(None)
    case Some(value) =>
      var plaintext :- seal.encode(value);
      var ciphertext :- Seal(c, context, seal.padding, plaintext, keys, entropy);
      Ok(Some(ciphertext))
  }

  function SealField<V, P>(
    c: Primitives, d: Derived<V>, i: nat, value: Value<V, P>, id: RecordValue, keys: Ring, indexKeys: Result<Ring>,
    entropy: Entropy): Result<StoredValue<P>>
    requires d.Sound() && i < |d.fields| && HasType(d.fields[i], value)
  {
    match d.fields[i].role
    case RecordId => Ok(StoredId(value.id))
    case Plaintext => Ok(StoredPlain(value.plain))
    case Sealed(sealId, _) =>
      var ciphertext :- SealValue(c, d.seals[i], NewContext(sealId, Some(id)), value.value, keys, entropy);
      var indexes :- DeriveIndexes(c, d.seals[i].indexes, value.value, indexKeys);
      Ok(StoredSecret(ciphertext, indexes))
  }

  function SealRecord<V, P>(
    c: Primitives, d: Derived<V>, record: seq<Value<V, P>>, keys: Ring, indexKeys: Result<Ring>,
    entropy: nat -> Entropy): Result<seq<StoredValue<P>>>
    requires d.Sound() && HasTypes(d.fields, record) && RecordIds(d.fields) != []
  {
    var id := record[RecordIdField(d.fields)].id;
    InOrder(|record|, i requires 0 <= i < |record| => SealField(c, d, i, record[i], id, keys, indexKeys, entropy(i)))
  }

  // ----- Opening -----

  function OpenField<V, P>(
    c: Primitives, d: Derived<V>, i: nat, stored: StoredValue<P>, id: RecordValue, keys: Ring): Result<Value<V, P>>
    requires d.Sound() && i < |d.fields|
  {
    match stored
    case StoredId(id) => Ok(IdOf(id))
    case StoredPlain(plain) => Ok(Plain(plain))
    case StoredSecret(None, _) => Ok(Secret(None))
    case StoredSecret(Some(ciphertext), _) =>
      if !d.fields[i].role.Sealed? then Err(Internal) else
      var plaintext :- Open(c, NewContext(d.fields[i].role.sealId, Some(id)), ciphertext, keys);
      var value :- d.seals[i].decode(plaintext);
      Ok(Secret(Some(value)))
  }

  function OpenRecord<V, P>(
    c: Primitives, d: Derived<V>, stored: seq<StoredValue<P>>, keys: Ring): Result<seq<Value<V, P>>>
    requires d.Sound() && StoredHasTypes(d.fields, stored) && RecordIds(d.fields) != []
  {
    var id := stored[RecordIdField(d.fields)].id;
    InOrder(|stored|, i requires 0 <= i < |stored| => OpenField(c, d, i, stored[i], id, keys))
  }

  // ----- The round trip -----

  lemma FieldRoundTrip<V, P>(
    c: Primitives, d: Derived<V>, i: nat, value: Value<V, P>, id: RecordValue, keys: Ring, indexKeys: Result<Ring>,
    entropy: Entropy, reader: Ring)
    requires c.Lawful() && d.Sound() && i < |d.fields| && HasType(d.fields[i], value)
    requires value.Secret? && value.value.Some? ==> d.Decodes(i, value.value.value)
    requires reader.Get(keys.current.id) == Some(keys.current)
    requires SealField(c, d, i, value, id, keys, indexKeys, entropy).Ok?
    ensures OpenField(c, d, i, SealField(c, d, i, value, id, keys, indexKeys, entropy).value, id, reader) == Ok(value)
  {
    if value.Secret? && value.value.Some? {
      SecretFieldRoundTrip(c, d, i, value, id, keys, indexKeys, entropy, reader);
    }
  }

  lemma SecretFieldRoundTrip<V, P>(
    c: Primitives, d: Derived<V>, i: nat, value: Value<V, P>, id: RecordValue, keys: Ring, indexKeys: Result<Ring>,
    entropy: Entropy, reader: Ring)
    requires c.Lawful() && d.Sound() && i < |d.fields| && HasType(d.fields[i], value)
    requires value.Secret? && value.value.Some? && d.Decodes(i, value.value.value)
    requires reader.Get(keys.current.id) == Some(keys.current)
    requires SealField(c, d, i, value, id, keys, indexKeys, entropy).Ok?
    ensures OpenField(c, d, i, SealField(c, d, i, value, id, keys, indexKeys, entropy).value, id, reader) == Ok(value)
  {
    var context := NewContext(d.fields[i].role.sealId, Some(id));
    SecretIsStored(c, d, i, value, id, keys, indexKeys, entropy);
    SecretRoundTrip(c, d.seals[i], context, value.value.value, keys, entropy, reader);
    var stored: StoredValue<P> := SealField(c, d, i, value, id, keys, indexKeys, entropy).value;
    SecretOpens<V, P>(c, d, i, stored.ciphertext.value, stored.indexes, id, reader, value.value.value);
  }

  lemma SecretIsStored<V, P>(
    c: Primitives, d: Derived<V>, i: nat, value: Value<V, P>, id: RecordValue, keys: Ring, indexKeys: Result<Ring>,
    entropy: Entropy)
    requires d.Sound() && i < |d.fields| && HasType(d.fields[i], value) && value.Secret?
    requires SealField(c, d, i, value, id, keys, indexKeys, entropy).Ok?
    ensures var context := NewContext(d.fields[i].role.sealId, Some(id));
            var stored := SealField(c, d, i, value, id, keys, indexKeys, entropy).value;
            && stored.StoredSecret?
            && SealValue(c, d.seals[i], context, value.value, keys, entropy) == Ok(stored.ciphertext)
  {
  }

  lemma SecretOpens<V, P>(
    c: Primitives, d: Derived<V>, i: nat, ciphertext: Bytes, indexes: seq<Option<Bytes>>, id: RecordValue,
    reader: Ring, value: V)
    requires d.Sound() && i < |d.fields| && d.fields[i].role.Sealed? && d.Decodes(i, value)
    requires d.seals[i].encode(value).Ok?
    requires Open(c, NewContext(d.fields[i].role.sealId, Some(id)), ciphertext, reader) == d.seals[i].encode(value)
    ensures OpenField<V, P>(c, d, i, StoredSecret(Some(ciphertext), indexes), id, reader) == Ok(Secret(Some(value)))
  {
  }

  lemma SecretRoundTrip<V>(
    c: Primitives, seal: FieldSeal<V>, context: Context, value: V, keys: Ring, entropy: Entropy, reader: Ring)
    requires c.Lawful() && seal.padding.Valid()
    requires reader.Get(keys.current.id) == Some(keys.current)
    requires SealValue(c, seal, context, Some(value), keys, entropy).Ok?
    ensures var sealed := SealValue(c, seal, context, Some(value), keys, entropy).value;
            sealed.Some? && Open(c, context, sealed.value, reader) == seal.encode(value)
  {
    OpenSeal(c, context, seal.padding, seal.encode(value).value, keys, entropy, reader);
  }

  ghost predicate AllDecode<V, P>(d: Derived<V>, record: seq<Value<V, P>>)
    requires |d.seals| == |record|
  {
    forall i :: 0 <= i < |record| && record[i].Secret? && record[i].value.Some? ==> d.Decodes(i, record[i].value.value)
  }

  /** Opening what was sealed returns the record: absent optional fields stay absent, and
      any reader still holding the writer's key will do. */
  lemma OpenOfSealIsIdentity<V, P>(
    c: Primitives, d: Derived<V>, record: seq<Value<V, P>>, keys: Ring, indexKeys: Result<Ring>,
    entropy: nat -> Entropy, reader: Ring)
    requires c.Lawful() && d.Sound() && WellFormed(d.fields)
    requires HasTypes(d.fields, record) && AllDecode(d, record)
    requires reader.Get(keys.current.id) == Some(keys.current)
    requires SealRecord(c, d, record, keys, indexKeys, entropy).Ok?
    ensures var stored := SealRecord(c, d, record, keys, indexKeys, entropy).value;
            StoredHasTypes(d.fields, stored) && OpenRecord(c, d, stored, reader) == Ok(record)
  {
    var id, at := record[RecordIdField(d.fields)].id, RecordIdField(d.fields);
    var stored := SealRecord(c, d, record, keys, indexKeys, entropy).value;
    var sealing := i requires 0 <= i < |record| => SealField(c, d, i, record[i], id, keys, indexKeys, entropy(i));
    InOrderEach(|record|, sealing, stored);
    forall i | 0 <= i < |record|
      ensures StoredHasType(d.fields[i], stored[i]) && (i == at ==> stored[i] == StoredId(id))
      ensures OpenField(c, d, i, stored[i], id, reader) == Ok(record[i])
    {
      assert sealing(i) == Ok(stored[i]);
      FieldRoundTrip(c, d, i, record[i], id, keys, indexKeys, entropy(i), reader);
    }
    OpenEach(c, d, stored, id, reader, record);
  }

  lemma OpenEach<V, P>(
    c: Primitives, d: Derived<V>, stored: seq<StoredValue<P>>, id: RecordValue, reader: Ring, record: seq<Value<V, P>>)
    requires d.Sound() && StoredHasTypes(d.fields, stored) && RecordIds(d.fields) != []
    requires stored[RecordIdField(d.fields)] == StoredId(id) && |record| == |stored|
    requires forall i :: 0 <= i < |stored| ==> OpenField(c, d, i, stored[i], id, reader) == Ok(record[i])
    ensures OpenRecord(c, d, stored, reader) == Ok(record)
  {
    var opening := i requires 0 <= i < |stored| => OpenField(c, d, i, stored[i], id, reader);
    InOrderEach(|stored|, opening, record);
  }

  lemma SealIdsDiffer(fields: seq<Field>, i: nat, j: nat)
    requires WellFormed(fields) && i < |fields| && j < |fields|
    requires fields[i].role.Sealed? && fields[j].role.Sealed?
    ensures i != j ==> fields[i].role.sealId != fields[j].role.sealId
  {
    if i < j {
      SealedFieldsDiffer(fields, i, j);
    } else if j < i {
      SealedFieldsDiffer(fields, j, i);
    }
  }

  /** Why seal IDs must differ: two sealed fields of an accepted record never share a
      context, and neither do two records. */
  lemma ContextsDiffer(fields: seq<Field>, i: nat, j: nat, id: RecordValue, other: RecordValue)
    requires WellFormed(fields) && i < |fields| && j < |fields|
    requires fields[i].role.Sealed? && fields[j].role.Sealed?
    requires i != j || id != other
    ensures Encode(fields[i].role.sealId, Some(id)) != Encode(fields[j].role.sealId, Some(other))
  {
    SealIdsDiffer(fields, i, j);
    var a, b := Encode(fields[i].role.sealId, Some(id)), Encode(fields[j].role.sealId, Some(other));
    assert a + [] == a && b + [] == b;
    if a == b {
      EncodePrefixFree(fields[i].role.sealId, Some(id), [], fields[j].role.sealId, Some(other), []);
    }
  }
}
