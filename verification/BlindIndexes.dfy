/** Blind indexes (src/blind.rs and src/blind/recipe.rs): deriving a stored index from
    a value, probing for a query with every readable key, and checking candidates. */
module BlindIndexes {
  import opened BlindFormat
  import opened Bytes
  import opened Crypto
  import opened Keyrings
  import opened SealContexts
  import opened Wrappers

  const INDEX_KEY_LABEL: Bytes := Ascii("cryptbox/blind-index-key/v1") + [0]
  const INDEX_VALUE_LABEL: Bytes := Ascii("cryptbox/blind-index-value/v1") + [0]

  /** A logical index over the values of one seal. */
  datatype IndexSpec<!V> = IndexSpec(
    sealId: Id,
    indexId: Id,
    bits: nat,
    normalizeValue: V -> Result<Bytes>)

  /** The info of the HKDF expansion that derives an index key. */
  function IndexKeyInfo(header: Bytes, context: Bytes, indexId: Id): Bytes {
    INDEX_KEY_LABEL + header + context + indexId
  }

  /** The HMAC input of an index; the normalized bytes are length-framed. */
  function IndexInput(header: Bytes, context: Bytes, indexId: Id, normalized: Bytes): Bytes {
    INDEX_VALUE_LABEL + header + context + indexId + BigEndian(|normalized|, 8) + normalized
  }

  function Digest(
    c: Primitives, normalized: Bytes, context: Bytes, indexId: Id, bits: nat, key: Key): Bytes
  {
    var header := IndexHeader(key.id, bits);
    c.mac(c.hkdf(key.material, IndexKeyInfo(header, context, indexId)),
          IndexInput(header, context, indexId, normalized))
  }

  function DeriveIndex(
    c: Primitives, normalized: Bytes, context: Bytes, indexId: Id, bits: nat, key: Key): Result<Bytes>
    requires ValidBits(bits)
  {
    if |normalized| > USIZE_MAX then Err(InvalidBlindIndex) else
    var digest := Digest(c, normalized, context, indexId, bits, key);
    // The digest of HMAC-SHA-256 is 32 bytes by its type.
    if |digest| != DIGEST_LEN then Err(Internal) else
    Ok(IndexHeader(key.id, bits) + Truncate(digest, bits))
  }

  /** Indexes are derived under their seal alone, never a record. */
  function IndexContext(sealId: Id): Bytes {
    Encode(sealId, None)
  }

  function DeriveNormalized<V>(c: Primitives, spec: IndexSpec<V>, normalized: Bytes, key: Key): Result<Bytes>
    requires ValidBits(spec.bits)
  {
    DeriveIndex(c, normalized, IndexContext(spec.sealId), spec.indexId, spec.bits, key)
  }

  function DeriveWithKey<V>(c: Primitives, spec: IndexSpec<V>, value: V, key: Key): Result<Bytes>
    requires ValidBits(spec.bits)
  {
    var normalized :- spec.normalizeValue(value);
    DeriveNormalized(c, spec, normalized, key)
  }

  /** The current stored index of a value. */
  function DeriveValue<V>(c: Primitives, spec: IndexSpec<V>, value: V, keys: Result<Ring>): Result<Bytes>
    requires ValidBits(spec.bits)
  {
    var ring :- keys;
    DeriveWithKey(c, spec, value, ring.current)
  }

  function DeriveEach<V>(c: Primitives, spec: IndexSpec<V>, normalized: Bytes, keys: seq<Key>): Result<seq<Bytes>>
    requires ValidBits(spec.bits)
  {
    if keys == [] then Ok([]) else
    var first :- DeriveNormalized(c, spec, normalized, keys[0]);
    var others :- DeriveEach(c, spec, normalized, keys[1..]);
    Ok([first] + others)
  }

  /** One probe for every readable key generation; `query` is what normalizing the
      lookup input returned. */
  function Probes<V>(c: Primitives, spec: IndexSpec<V>, query: Result<Bytes>, keys: Result<Ring>): Result<seq<Bytes>>
    requires ValidBits(spec.bits)
  {
    var normalized :- query;
    var ring :- keys;
    DeriveEach(c, spec, normalized, ring.Readable())
  }

  /** Whether a query and a candidate value normalize alike. */
  function VerifyCandidate<V>(spec: IndexSpec<V>, query: Result<Bytes>, candidate: V): Result<bool> {
    var query :- query;
    var candidate :- spec.normalizeValue(candidate);
    Ok(query == candidate)
  }

  /** Re-derives under exactly the key generation a stored index names. */
  function CheckConsistency<V>(
    c: Primitives, spec: IndexSpec<V>, value: V, stored: Bytes, keys: Result<Ring>): Result<bool>
    requires ValidBits(spec.bits)
    requires InspectBlindIndex(stored).Ok?
  {
    var ring :- keys;
    var id := InspectBlindIndex(stored).value.keyId;
    match ring.Get(id)
    case None => Err(UnknownBlindIndexKey(id))
    case Some(key) =>
      var derived :- DeriveWithKey(c, spec, value, key);
      Ok(derived == stored)
  }

  // ----- Length framing -----

  lemma HeaderInjective(k: Id, bits: nat, k': Id, bits': nat)
    requires ValidBits(bits) && ValidBits(bits')
    requires IndexHeader(k, bits) == IndexHeader(k', bits')
    ensures k == k' && bits == bits'
  {
    BitsRoundTrip(bits);
    BitsRoundTrip(bits');
    HeaderParts(k, BigEndian(bits, 2), k', BigEndian(bits', 2));
  }

  lemma HeaderParts(k: Id, encoded: Bytes, k': Id, encoded': Bytes)
    requires [INDEX_FORMAT_VERSION] + k + encoded == [INDEX_FORMAT_VERSION] + k' + encoded'
    ensures k == k' && encoded == encoded'
  {
    assert [INDEX_FORMAT_VERSION] + k + encoded == [INDEX_FORMAT_VERSION] + (k + encoded);
    assert [INDEX_FORMAT_VERSION] + k' + encoded' == [INDEX_FORMAT_VERSION] + (k' + encoded');
    SplitEqual([INDEX_FORMAT_VERSION], k + encoded, [INDEX_FORMAT_VERSION], k' + encoded');
    SplitEqual(k, encoded, k', encoded');
  }

  /** Everything the two index derivations commit to after their labels. */
  function Committed(k: Id, bits: nat, seal: Id, record: Option<RecordValue>, indexId: Id, rest: Bytes): Bytes {
    IndexHeader(k, bits) + (Encode(seal, record) + (indexId + rest))
  }

  lemma CommittedInjective(
    k: Id, bits: nat, seal: Id, record: Option<RecordValue>, indexId: Id, rest: Bytes,
    k': Id, bits': nat, seal': Id, record': Option<RecordValue>, indexId': Id, rest': Bytes)
    requires ValidBits(bits) && ValidBits(bits')
    requires Committed(k, bits, seal, record, indexId, rest) == Committed(k', bits', seal', record', indexId', rest')
    ensures k == k' && bits == bits' && seal == seal' && record == record' && indexId == indexId' && rest == rest'
  {
    var tail, tail' := Encode(seal, record) + (indexId + rest), Encode(seal', record') + (indexId' + rest');
    SplitEqual(IndexHeader(k, bits), tail, IndexHeader(k', bits'), tail');
    HeaderInjective(k, bits, k', bits');
    EncodePrefixFree(seal, record, indexId + rest, seal', record', indexId' + rest');
    SplitEqual(indexId, rest, indexId', rest');
  }

  /** An index key is separated by key generation, precision, seal, and index. */
  lemma IndexKeyInfoInjective(
    k: Id, bits: nat, seal: Id, record: Option<RecordValue>, indexId: Id,
    k': Id, bits': nat, seal': Id, record': Option<RecordValue>, indexId': Id)
    requires ValidBits(bits) && ValidBits(bits')
    requires IndexKeyInfo(IndexHeader(k, bits), Encode(seal, record), indexId)
          == IndexKeyInfo(IndexHeader(k', bits'), Encode(seal', record'), indexId')
    ensures k == k' && bits == bits' && seal == seal' && record == record' && indexId == indexId'
  {
    var x, y := Committed(k, bits, seal, record, indexId, []), Committed(k', bits', seal', record', indexId', []);
    Regroup(INDEX_KEY_LABEL, IndexHeader(k, bits), Encode(seal, record), indexId, []);
    Regroup(INDEX_KEY_LABEL, IndexHeader(k', bits'), Encode(seal', record'), indexId', []);
    SplitEqual(INDEX_KEY_LABEL, x, INDEX_KEY_LABEL, y);
    CommittedInjective(k, bits, seal, record, indexId, [], k', bits', seal', record', indexId', []);
  }

  lemma Regroup(prefix: Bytes, header: Bytes, context: Bytes, indexId: Bytes, rest: Bytes)
    ensures prefix + header + context + indexId + rest == prefix + (header + (context + (indexId + rest)))
    ensures rest == [] ==> prefix + header + context + indexId == prefix + (header + (context + (indexId + rest)))
  {
  }

  /** The HMAC input is injective in every part, the normalized value included. */
  lemma IndexInputInjective(
    k: Id, bits: nat, seal: Id, record: Option<RecordValue>, indexId: Id, normalized: Bytes,
    k': Id, bits': nat, seal': Id, record': Option<RecordValue>, indexId': Id, normalized': Bytes)
    requires ValidBits(bits) && ValidBits(bits')
    requires IndexInput(IndexHeader(k, bits), Encode(seal, record), indexId, normalized)
          == IndexInput(IndexHeader(k', bits'), Encode(seal', record'), indexId', normalized')
    ensures k == k' && bits == bits' && seal == seal' && record == record' && indexId == indexId'
    ensures normalized == normalized'
  {
    var len, len' := BigEndian(|normalized|, 8), BigEndian(|normalized'|, 8);
    var rest, rest' := len + normalized, len' + normalized';
    RegroupInput(INDEX_VALUE_LABEL, IndexHeader(k, bits), Encode(seal, record), indexId, len, normalized);
    RegroupInput(INDEX_VALUE_LABEL, IndexHeader(k', bits'), Encode(seal', record'), indexId', len', normalized');
    SplitEqual(INDEX_VALUE_LABEL, Committed(k, bits, seal, record, indexId, rest),
               INDEX_VALUE_LABEL, Committed(k', bits', seal', record', indexId', rest'));
    CommittedInjective(k, bits, seal, record, indexId, rest, k', bits', seal', record', indexId', rest');
    SplitEqual(len, normalized, len', normalized');
  }

  lemma RegroupInput(prefix: Bytes, header: Bytes, context: Bytes, indexId: Bytes, len: Bytes, rest: Bytes)
    ensures prefix + header + context + indexId + len + rest
         == prefix + (header + (context + (indexId + (len + rest))))
  {
  }

  // ----- Lookups -----

  /** A derived index is structurally valid and names the key and precision it has. */
  lemma DerivedParses(c: Primitives, normalized: Bytes, context: Bytes, indexId: Id, bits: nat, key: Key)
    requires ValidBits(bits)
    requires DeriveIndex(c, normalized, context, indexId, bits, key).Ok?
    ensures InspectBlindIndex(DeriveIndex(c, normalized, context, indexId, bits, key).value)
         == Ok(BlindIndexInfo(key.id, bits))
  {
    InspectEncoded(key.id, bits, Digest(c, normalized, context, indexId, bits, key));
  }

  lemma {:induction false} DeriveEachCovers<V>(
    c: Primitives, spec: IndexSpec<V>, normalized: Bytes, keys: seq<Key>, key: Key)
    requires ValidBits(spec.bits) && key in keys
    requires DeriveEach(c, spec, normalized, keys).Ok?
    ensures DeriveNormalized(c, spec, normalized, key).Ok?
    ensures DeriveNormalized(c, spec, normalized, key).value in DeriveEach(c, spec, normalized, keys).value
  {
    if key != keys[0] {
      DeriveEachCovers(c, spec, normalized, keys[1..], key);
    }
  }

  lemma {:induction false} DeriveEachSucceeds<V>(
    c: Primitives, spec: IndexSpec<V>, normalized: Bytes, keys: seq<Key>)
    requires ValidBits(spec.bits) && c.Lawful() && |normalized| <= USIZE_MAX
    ensures DeriveEach(c, spec, normalized, keys).Ok?
  {
    if keys != [] {
      DeriveEachSucceeds(c, spec, normalized, keys[1..]);
    }
  }

  /** A lookup has no false negative: whichever key of the ring derived a stored
      index, a query that normalizes alike probes for exactly its bytes. */
  lemma ProbesFindIndex<V>(
    c: Primitives, spec: IndexSpec<V>, query: Result<Bytes>, value: V, ring: Ring, key: Key)
    requires ValidBits(spec.bits) && c.Lawful() && ring.Valid() && key in ring.keys
    requires query == spec.normalizeValue(value)
    requires DeriveWithKey(c, spec, value, key).Ok?
    ensures Probes(c, spec, query, Ok(ring)).Ok?
    ensures DeriveWithKey(c, spec, value, key).value in Probes(c, spec, query, Ok(ring)).value
  {
    var normalized := query.value;
    ReadableIsComplete(ring);
    DeriveEachSucceeds(c, spec, normalized, ring.Readable());
    DeriveEachCovers(c, spec, normalized, ring.Readable(), key);
  }

  /** Probing fails with the query's own error first, then for want of keys, and otherwise
      only for a query too long to frame; it makes one probe for each key of the ring. */
  lemma ProbesReport<V>(c: Primitives, spec: IndexSpec<V>, query: Result<Bytes>, keys: Result<Ring>)
    requires ValidBits(spec.bits) && c.Lawful()
    ensures query.Err? ==> Probes(c, spec, query, keys) == Err(query.error)
    ensures query.Ok? && keys.Err? ==> Probes(c, spec, query, keys) == Err(keys.error)
    ensures query.Ok? && keys.Ok? ==>
              if |query.value| > USIZE_MAX then Probes(c, spec, query, keys) == Err(InvalidBlindIndex)
              else
                && Probes(c, spec, query, keys).Ok?
                && |Probes(c, spec, query, keys).value| == |keys.value.Readable()|
  {
    if query.Ok? && keys.Ok? {
      var readable := keys.value.Readable();
      if |query.value| <= USIZE_MAX {
        DeriveEachSucceeds(c, spec, query.value, readable);
        DeriveEachCount(c, spec, query.value, readable);
      }
    }
  }

  lemma {:induction false} DeriveEachCount<V>(
    c: Primitives, spec: IndexSpec<V>, normalized: Bytes, keys: seq<Key>)
    requires ValidBits(spec.bits) && DeriveEach(c, spec, normalized, keys).Ok?
    ensures |DeriveEach(c, spec, normalized, keys).value| == |keys|
  {
    if keys != [] {
      DeriveEachCount(c, spec, normalized, keys[1..]);
    }
  }

  /** Deriving an index reports missing keys before the value is normalized, and then its
      normalizer's error. */
  lemma DeriveReports<V>(c: Primitives, spec: IndexSpec<V>, value: V, keys: Result<Ring>)
    requires ValidBits(spec.bits) && c.Lawful()
    ensures keys.Err? ==> DeriveValue(c, spec, value, keys) == Err(keys.error)
    ensures keys.Ok? && spec.normalizeValue(value).Err? ==>
              DeriveValue(c, spec, value, keys) == Err(spec.normalizeValue(value).error)
    ensures keys.Ok? && spec.normalizeValue(value).Ok? ==>
              if |spec.normalizeValue(value).value| > USIZE_MAX then
                DeriveValue(c, spec, value, keys) == Err(InvalidBlindIndex)
              else
                && DeriveValue(c, spec, value, keys).Ok?
                && InspectBlindIndex(DeriveValue(c, spec, value, keys).value)
                   == Ok(BlindIndexInfo(keys.value.current.id, spec.bits))
  {
    if keys.Ok? && spec.normalizeValue(value).Ok? && |spec.normalizeValue(value).value| <= USIZE_MAX {
      DerivedParses(c, spec.normalizeValue(value).value, IndexContext(spec.sealId), spec.indexId, spec.bits,
                    keys.value.current);
    }
  }

  /** A candidate matches exactly if both sides normalize, and alike; an error is the
      query's before it is the candidate's. */
  lemma CandidateReports<V>(spec: IndexSpec<V>, query: Result<Bytes>, candidate: V)
    ensures query.Err? ==> VerifyCandidate(spec, query, candidate) == Err(query.error)
    ensures query.Ok? && spec.normalizeValue(candidate).Err? ==>
              VerifyCandidate(spec, query, candidate) == Err(spec.normalizeValue(candidate).error)
    ensures query.Ok? && spec.normalizeValue(candidate).Ok? ==>
              VerifyCandidate(spec, query, candidate) == Ok(spec.normalizeValue(candidate) == query)
  {
  }

  /** Recomputing fails for want of keys, or of the key that the index names, or of an index
      of the value; nothing else but equality decides. */
  lemma ConsistencyReports<V>(c: Primitives, spec: IndexSpec<V>, value: V, stored: Bytes, keys: Result<Ring>)
    requires ValidBits(spec.bits) && InspectBlindIndex(stored).Ok? && (keys.Ok? ==> keys.value.Valid())
    ensures keys.Err? ==> CheckConsistency(c, spec, value, stored, keys) == Err(keys.error)
    ensures var id := InspectBlindIndex(stored).value.keyId;
            keys.Ok? ==>
              && ((forall key :: key in keys.value.keys ==> key.id != id) ==>
                    CheckConsistency(c, spec, value, stored, keys) == Err(UnknownBlindIndexKey(id)))
              && forall key :: key in keys.value.keys && key.id == id ==>
                   CheckConsistency(c, spec, value, stored, keys)
                     == match DeriveWithKey(c, spec, value, key)
                        case Err(error) => Err(error)
                        case Ok(derived) => Ok(derived == stored)
  {
    if keys.Ok? {
      var id := InspectBlindIndex(stored).value.keyId;
      if keys.value.Get(id).Some? {
        GetExact(keys.value, id, keys.value.Get(id).value);
      }
      forall key | key in keys.value.keys && key.id == id
        ensures keys.value.Get(id) == Some(key)
      {
        GetExact(keys.value, id, key);
      }
    }
  }

  /** Recomputing an index under the generation it names accepts exactly what some key
      of the ring derived from the value. */
  lemma ConsistencyExactly<V>(c: Primitives, spec: IndexSpec<V>, value: V, stored: Bytes, ring: Ring)
    requires ValidBits(spec.bits) && ring.Valid()
    requires InspectBlindIndex(stored).Ok?
    ensures CheckConsistency(c, spec, value, stored, Ok(ring)) == Ok(true)
       <==> exists key :: key in ring.keys && DeriveWithKey(c, spec, value, key) == Ok(stored)
  {
    var id := InspectBlindIndex(stored).value.keyId;
    forall key | key in ring.keys && DeriveWithKey(c, spec, value, key) == Ok(stored)
      ensures ring.Get(id) == Some(key)
    {
      var normalized := spec.normalizeValue(value).value;
      DerivedParses(c, normalized, IndexContext(spec.sealId), spec.indexId, spec.bits, key);
      GetExact(ring, id, key);
    }
    match ring.Get(id)
    case None =>
    case Some(key) => GetExact(ring, id, key);
  }
}
