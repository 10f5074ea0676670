/** What keeps keys apart (src/envelope/suite.rs, src/blind/recipe.rs): from a premise on
    the primitives at the calls at hand, and on nothing else, two sealings share an AEAD key
    only under one root key, key ID and context, and two values share an index only if
    everything that an index is derived from agrees. */
module KeySeparation {
  import opened Binding
  import opened BlindFormat
  import opened BlindIndexes
  import opened Bytes
  import opened Crypto
  import opened EnvelopeFormat
  import opened EnvelopeSuite
  import opened Envelopes
  import opened Keyrings
  import opened SealContexts
  import opened Wrappers

  /** HKDF gives these two calls one output only if they are one call. */
  ghost predicate HkdfSeparates(c: Primitives, root: Bytes, info: Bytes, root': Bytes, info': Bytes) {
    c.hkdf(root, info) == c.hkdf(root', info') ==> root == root' && info == info'
  }

  // ----- Envelope keys -----

  /** The key-derivation input of an envelope. */
  function EnvelopeInfo(keyId: Id, sealId: Id, record: Option<RecordValue>): Bytes {
    KeyInfo(2, 1, keyId, Encode(sealId, record))
  }

  /** Two AEAD keys are one exactly if root key, key ID, seal ID and record ID are. */
  lemma SealKeysSeparate(
    c: Primitives, a: Id, r: Option<RecordValue>, plaintext: AeadPlaintext, key: Key, nonce: Nonce,
    b: Id, s: Option<RecordValue>, plaintext': AeadPlaintext, key': Key, nonce': Nonce)
    requires HkdfSeparates(c, key.material, EnvelopeInfo(key.id, a, r), key'.material, EnvelopeInfo(key'.id, b, s))
    ensures SealCall(c, NewContext(a, r), plaintext, key, nonce).key
         == SealCall(c, NewContext(b, s), plaintext', key', nonce').key
       <==> key.material == key'.material && key.id == key'.id && a == b && r == s
  {
    if EnvelopeInfo(key.id, a, r) == EnvelopeInfo(key'.id, b, s) {
      KeyInfoInjective(2, 1, key.id, Encode(a, r), 2, 1, key'.id, Encode(b, s));
      assert Encode(a, r) + [] == Encode(a, r) && Encode(b, s) + [] == Encode(b, s);
      EncodePrefixFree(a, r, [], b, s, []);
    }
  }

  /** HKDF separates the reader's key from those of the log. */
  ghost predicate HkdfSeparatesLog(
    c: Primitives, log: set<Sealing>, sealId: Id, record: Option<RecordValue>, key: Key)
  {
    forall sealing :: sealing in log ==>
      HkdfSeparates(c, sealing.key.material, EnvelopeInfo(sealing.key.id, sealing.sealId, sealing.record),
                    key.material, EnvelopeInfo(key.id, sealId, record))
  }

  /** Whatever opens was sealed under the very key that opened it. */
  lemma OpensOnlyUnderItsKey(
    c: Primitives, log: set<Sealing>, sealId: Id, record: Option<RecordValue>, envelope: Bytes, reader: Ring, key: Key)
    requires c.Lawful() && reader.Valid()
    requires NotForged(c, log, Attempt(c, NewContext(sealId, record), envelope, reader))
    requires forall sealing :: sealing in log ==> sealing.Envelope(c).Ok?
    requires Open(c, NewContext(sealId, record), envelope, reader).Ok?
    requires reader.Get(InspectCiphertext(envelope).value.keyId) == Some(key)
    requires HkdfSeparatesLog(c, log, sealId, record, key)
    ensures exists sealing :: sealing in log && sealing.Envelope(c) == Ok(envelope) && sealing.key == key
  {
    OpenIsAttempt(c, NewContext(sealId, record), envelope, reader);
    DecryptsOnlyUnderItsKey(c, log, sealId, record, envelope, reader, key);
  }

  lemma DecryptsOnlyUnderItsKey(
    c: Primitives, log: set<Sealing>, sealId: Id, record: Option<RecordValue>, envelope: Bytes, reader: Ring, key: Key)
    requires c.Lawful() && reader.Valid()
    requires NotForged(c, log, Attempt(c, NewContext(sealId, record), envelope, reader))
    requires forall sealing :: sealing in log ==> sealing.Envelope(c).Ok?
    requires Attempt(c, NewContext(sealId, record), envelope, reader).Some?
    requires Decrypts(c, Attempt(c, NewContext(sealId, record), envelope, reader).value).Some?
    requires reader.Get(InspectCiphertext(envelope).value.keyId) == Some(key)
    requires HkdfSeparatesLog(c, log, sealId, record, key)
    ensures exists sealing :: sealing in log && sealing.Envelope(c) == Ok(envelope) && sealing.key == key
  {
    var context := NewContext(sealId, record);
    AttemptParts(c, context, envelope, reader);
    var call := Attempt(c, context, envelope, reader).value;
    var sealing :| sealing in log && sealing.Call(c) == call;
    SameCallSameSealing(c, sealing, sealId, record, envelope, call);
    SealKeysSeparate(c, sealing.sealId, sealing.record, sealing.plaintext, sealing.key, sealing.nonce,
                     sealId, record, sealing.plaintext, key, sealing.nonce);
  }

  /** Another root key under the same ID opens nothing: an envelope that its own ring opens
      fails to authenticate, and with no other error. */
  lemma OtherMaterialFails(
    c: Primitives, log: set<Sealing>, sealId: Id, record: Option<RecordValue>, envelope: Bytes,
    writer: Ring, reader: Ring, key: Key, other: Key)
    requires c.Lawful() && writer.Valid() && reader.Valid()
    requires Open(c, NewContext(sealId, record), envelope, writer).Ok?
    requires writer.Get(InspectCiphertext(envelope).value.keyId) == Some(key)
    requires reader.Get(InspectCiphertext(envelope).value.keyId) == Some(other) && other.material != key.material
    requires NotForged(c, log, Attempt(c, NewContext(sealId, record), envelope, reader))
    requires forall sealing :: sealing in log ==>
               && sealing.Envelope(c).Ok?
               && (sealing.Envelope(c) == Ok(envelope) ==> sealing.key == key)
    requires HkdfSeparatesLog(c, log, sealId, record, other)
    ensures Open(c, NewContext(sealId, record), envelope, reader) == Err(AuthenticationFailed)
  {
    var context := NewContext(sealId, record);
    AttemptsAlike(c, context, envelope, writer, reader);
    if Decrypts(c, Attempt(c, context, envelope, reader).value).Some? {
      DecryptsOnlyUnderItsKey(c, log, sealId, record, envelope, reader, other);
    }
  }

  /** A ring that holds some key of an envelope's ID gets as far as any other does. */
  lemma AttemptsAlike(c: Primitives, context: Context, envelope: Bytes, writer: Ring, reader: Ring)
    requires Open(c, context, envelope, writer).Ok?
    requires reader.Get(InspectCiphertext(envelope).value.keyId).Some?
    ensures var attempt := Attempt(c, context, envelope, reader);
            && attempt.Some?
            && (Decrypts(c, attempt.value).None? ==>
                  Open(c, context, envelope, reader) == Err(AuthenticationFailed))
  {
  }

  // ----- Indexes -----

  /** The key-derivation input of an index. */
  function IndexInfo(keyId: Id, bits: nat, sealId: Id, indexId: Id): Bytes {
    IndexKeyInfo(IndexHeader(keyId, bits), Encode(sealId, None), indexId)
  }

  /** The HMAC input of an index. */
  function IndexMessage(keyId: Id, bits: nat, sealId: Id, indexId: Id, normalized: Bytes): Bytes {
    IndexInput(IndexHeader(keyId, bits), Encode(sealId, None), indexId, normalized)
  }

  /** Different MAC calls differ in the bits an index keeps. That is what a precision of
      `bits` bits is chosen for: shorter ones make it fail for more pairs of values. */
  ghost predicate MacSeparates(c: Primitives, key: Bytes, input: Bytes, key': Bytes, input': Bytes, bits: nat)
    requires |c.mac(key, input)| == DIGEST_LEN && |c.mac(key', input')| == DIGEST_LEN && ValidBits(bits)
  {
    key != key' || input != input' ==> Truncate(c.mac(key, input), bits) != Truncate(c.mac(key', input'), bits)
  }

  /** Everything an index is derived from. */
  datatype Derivation = Derivation(key: Key, sealId: Id, indexId: Id, bits: nat, normalized: Bytes) {
    predicate Valid() {
      ValidBits(bits) && |normalized| <= USIZE_MAX
    }

    function Info(): Bytes {
      IndexInfo(key.id, bits, sealId, indexId)
    }

    function MacKey(c: Primitives): Bytes {
      c.hkdf(key.material, Info())
    }

    function Message(): Bytes {
      IndexMessage(key.id, bits, sealId, indexId, normalized)
    }
  }

  /** The two derivations' calls are separated by HKDF, and by as much of HMAC as an index
      keeps. */
  ghost predicate Separates(c: Primitives, x: Derivation, y: Derivation)
    requires c.Lawful() && x.Valid() && y.Valid()
  {
    && HkdfSeparates(c, x.key.material, x.Info(), y.key.material, y.Info())
    && MacSeparates(c, x.MacKey(c), x.Message(), y.MacKey(c), y.Message(), x.bits)
  }

  /** What is stored of a derivation. */
  function Stored(c: Primitives, from: Derivation): Result<Bytes>
    requires from.Valid()
  {
    DeriveIndex(c, from.normalized, IndexContext(from.sealId), from.indexId, from.bits, from.key)
  }

  lemma StoredSplits(c: Primitives, from: Derivation)
    requires c.Lawful() && from.Valid()
    ensures Stored(c, from)
         == Ok(IndexHeader(from.key.id, from.bits) + Truncate(c.mac(from.MacKey(c), from.Message()), from.bits))
  {
    assert |c.mac(from.MacKey(c), from.Message())| == DIGEST_LEN;
  }

  /** Two stored indexes are equal exactly if key, seal, index, precision and normalized
      value are. */
  lemma IndexesSeparate(c: Primitives, x: Derivation, y: Derivation)
    requires c.Lawful() && x.Valid() && y.Valid() && Separates(c, x, y)
    ensures Stored(c, x) == Stored(c, y) <==> x == y
  {
    StoredSplits(c, x);
    StoredSplits(c, y);
    if Stored(c, x) == Stored(c, y) {
      SplitEqual(IndexHeader(x.key.id, x.bits), Truncate(c.mac(x.MacKey(c), x.Message()), x.bits),
                 IndexHeader(y.key.id, y.bits), Truncate(c.mac(y.MacKey(c), y.Message()), y.bits));
      HeaderInjective(x.key.id, x.bits, y.key.id, y.bits);
      SameCallsSameDerivation(c, x, y);
    }
  }

  lemma SameCallsSameDerivation(c: Primitives, x: Derivation, y: Derivation)
    requires x.Valid() && y.Valid() && x.Message() == y.Message() && x.MacKey(c) == y.MacKey(c)
    requires HkdfSeparates(c, x.key.material, x.Info(), y.key.material, y.Info())
    ensures x == y
  {
    IndexInputInjective(x.key.id, x.bits, x.sealId, None, x.indexId, x.normalized,
                        y.key.id, y.bits, y.sealId, None, y.indexId, y.normalized);
  }

  /** What `spec` derives from a value that normalizes to `normalized`. */
  function DerivationOf<V>(spec: IndexSpec<V>, normalized: Bytes, key: Key): Derivation {
    Derivation(key, spec.sealId, spec.indexId, spec.bits, normalized)
  }

  lemma {:induction false} ProbesAreDerived<V>(
    c: Primitives, spec: IndexSpec<V>, normalized: Bytes, keys: seq<Key>, probe: Bytes)
    requires ValidBits(spec.bits) && DeriveEach(c, spec, normalized, keys).Ok?
    requires probe in DeriveEach(c, spec, normalized, keys).value
    ensures exists key :: key in keys && DeriveNormalized(c, spec, normalized, key) == Ok(probe)
  {
    var probes := DeriveEach(c, spec, normalized, keys).value;
    if probe == probes[0] {
      assert keys[0] in keys;
    } else {
      assert probe in probes[1..];
      ProbesAreDerived(c, spec, normalized, keys[1..], probe);
    }
  }

  /** A stored index is probed for exactly by queries that normalize as its value did, with
      rings that hold its key: no other query selects the row. */
  lemma ProbedExactly<V>(
    c: Primitives, spec: IndexSpec<V>, value: V, normalized: Bytes, key: Key, query: Bytes, ring: Ring)
    requires c.Lawful() && ValidBits(spec.bits) && ring.Valid()
    requires spec.normalizeValue(value) == Ok(normalized) && |normalized| <= USIZE_MAX && |query| <= USIZE_MAX
    requires forall k :: k in ring.keys ==>
               Separates(c, DerivationOf(spec, query, k), DerivationOf(spec, normalized, key))
    ensures DeriveWithKey(c, spec, value, key).Ok? && Probes(c, spec, Ok(query), Ok(ring)).Ok?
    ensures DeriveWithKey(c, spec, value, key).value in Probes(c, spec, Ok(query), Ok(ring)).value
       <==> query == normalized && key in ring.keys
  {
    var stored := DerivationOf(spec, normalized, key);
    StoredSplits(c, stored);
    DeriveEachSucceeds(c, spec, query, ring.Readable());
    var index := DeriveWithKey(c, spec, value, key).value;
    ReadableIsComplete(ring);
    if index in Probes(c, spec, Ok(query), Ok(ring)).value {
      ProbesAreDerived(c, spec, query, ring.Readable(), index);
      var k :| k in ring.Readable() && DeriveNormalized(c, spec, query, k) == Ok(index);
      IndexesSeparate(c, DerivationOf(spec, query, k), stored);
    }
    if query == normalized && key in ring.keys {
      ProbesFindIndex(c, spec, Ok(query), value, ring, key);
    }
  }

  // ----- The premises can be met -----

  /** Primitives whose HKDF hides nothing, and whose MAC is the end of its input. */
  function Echoing(): Primitives {
    Transparent().(mac := (key, input: Bytes) => if |input| < 32 then Zeros(32) else input[|input| - 32..])
  }

  lemma EchoingIsLawful()
    ensures Echoing().Lawful()
  {
    forall key, nonce, aad, message
      ensures Echoing().Seals(key, nonce, aad, message)
    {
    }
  }

  /** They separate any two values of one byte, at full precision, and roots of one length. */
  lemma EchoingSeparates(x: Derivation, a: Byte, b: Byte)
    requires x.bits == 256 && x.normalized == [a]
    ensures Echoing().Lawful() && Separates(Echoing(), x, x.(normalized := [b]))
  {
    EchoingIsLawful();
    var y := x.(normalized := [b]);
    EndsWithValue(x, a);
    EndsWithValue(y, b);
    if a != b {
      EchoesDiffer(x.MacKey(Echoing()), x.Message(), y.MacKey(Echoing()), y.Message());
    }
  }

  lemma EndsWithValue(x: Derivation, a: Byte)
    requires x.normalized == [a]
    ensures |x.Message()| >= 32 && x.Message()[|x.Message()| - 1] == a
  {
  }

  lemma EchoesDiffer(key: Bytes, input: Bytes, key': Bytes, input': Bytes)
    requires |input| >= 32 && |input'| >= 32 && input[|input| - 1] != input'[|input'| - 1]
    ensures MacLen(Echoing(), key, input) && MacLen(Echoing(), key', input')
    ensures Truncate(Echoing().mac(key, input), 256) != Truncate(Echoing().mac(key', input'), 256)
  {
    var kept, kept' := input[|input| - 32..], input'[|input'| - 32..];
    assert Echoing().mac(key, input) == kept && Echoing().mac(key', input') == kept';
    assert kept[31] != kept'[31];
    WholeDigest(kept);
    WholeDigest(kept');
  }

  predicate MacLen(c: Primitives, key: Bytes, input: Bytes) {
    |c.mac(key, input)| == DIGEST_LEN
  }

  /** At full precision nothing is cut off. */
  lemma WholeDigest(digest: Bytes)
    requires |digest| == DIGEST_LEN
    ensures Truncate(digest, 256) == digest
  {
    AllOnes(digest[31]);
    assert digest == digest[..31] + [digest[31]];
  }

  lemma AllOnes(b: Byte)
    ensures b & 0xFF == b
  {
  }

  lemma RootsOfOneLengthSeparate(root: Bytes, info: Bytes, root': Bytes, info': Bytes)
    requires |root| == |root'|
    ensures HkdfSeparates(Echoing(), root, info, root', info')
  {
    if root + info == root' + info' {
      SplitEqual(root, info, root', info');
    }
  }
}
