/** What authenticated encryption binds. The AEAD is ideal for one attempt at a time:
    the call that opens was made by some sealing. No injectivity is assumed of the
    primitives, which a 16-byte tag could not have. */
module Binding {
  import opened BlindIndexes
  import opened Bytes
  import opened Crypto
  import opened EnvelopeFormat
  import opened EnvelopeSuite
  import opened Envelopes
  import opened Keyrings
  import opened PaddingPolicy
  import opened SealContexts
  import opened Wrappers

  /** One sealing that was performed. */
  datatype Sealing = Sealing(
    sealId: Id, record: Option<RecordValue>, plaintext: AeadPlaintext, key: Key, nonce: Nonce)
  {
    function Call(c: Primitives): AeadCall {
      SealCall(c, NewContext(sealId, record), plaintext, key, nonce)
    }

    function Envelope(c: Primitives): Result<Bytes> {
      SealWithNonce(c, NewContext(sealId, record), plaintext, key, nonce)
    }

    /** The plaintext before padding. */
    function Value(): Result<Bytes> {
      if plaintext.Padded? then Unpad(plaintext.bytes) else Ok(plaintext.bytes)
    }
  }

  function Decrypts(c: Primitives, call: AeadCall): Option<Bytes> {
    c.decrypt(call.key, call.nonce, call.aad, call.output)
  }

  /** The AEAD call an opening makes, if it gets that far. */
  function Attempt(c: Primitives, context: Context, envelope: Bytes, reader: Ring): Option<AeadCall> {
    match Check(context, envelope)
    case Err(_) => None
    case Ok(checked) =>
      match reader.Get(checked.parsed.info.keyId)
      case None => None
      case Some(key) =>
        match OpenCall(c, context, checked.parsed, key)
        case Err(_) => None
        case Ok(call) => Some(call)
  }

  /** The attempt is no forgery: if its tag verifies, a sealing of the log made it. */
  ghost predicate NotForged(c: Primitives, log: set<Sealing>, attempt: Option<AeadCall>) {
    attempt.Some? && Decrypts(c, attempt.value).Some? ==>
      exists sealing :: sealing in log && sealing.Call(c) == attempt.value
  }

  /** An opening succeeds only through its attempt, and returns what that decrypts to. */
  lemma OpenIsAttempt(c: Primitives, context: Context, envelope: Bytes, reader: Ring)
    requires Open(c, context, envelope, reader).Ok?
    ensures var attempt := Attempt(c, context, envelope, reader);
            && attempt.Some? && Decrypts(c, attempt.value).Some?
            && var info := InspectCiphertext(envelope).value;
               var plaintext := Decrypts(c, attempt.value).value;
               && InspectCiphertext(envelope).Ok?
               && Open(c, context, envelope, reader) == if info.padded then Unpad(plaintext) else Ok(plaintext)
  {
  }

  /** The parts of an envelope an attempt authenticates, and nothing is left over. */
  lemma AttemptParts(c: Primitives, context: Context, envelope: Bytes, reader: Ring)
    requires Attempt(c, context, envelope, reader).Some?
    ensures var call := Attempt(c, context, envelope, reader).value;
            && |envelope| >= HEADER_LEN + NONCE_LEN
            && call.aad == EnvelopeAad(envelope[..HEADER_LEN + NONCE_LEN], context.bytes)
            && envelope == envelope[..HEADER_LEN + NONCE_LEN] + call.output.ciphertext + call.output.tag
            && InspectCiphertext(envelope).Ok?
            && exists key :: reader.Get(InspectCiphertext(envelope).value.keyId) == Some(key)
                             && call.key == OperationalKey(c, key, context.bytes)
  {
    var parsed := Check(context, envelope).value.parsed;
    var body := envelope[HEADER_LEN + NONCE_LEN..];
    assert body == body[..|body| - TAG_LEN] + body[|body| - TAG_LEN..];
    assert envelope == envelope[..HEADER_LEN + NONCE_LEN] + body;
  }

  /** A call that decrypts was made by a logged sealing under the same seal ID and record
      ID, which wrote the envelope byte for byte from the same plaintext. */
  lemma DecryptsOnlyAsSealed(
    c: Primitives, log: set<Sealing>, sealId: Id, record: Option<RecordValue>, envelope: Bytes, reader: Ring)
    requires c.Lawful()
    requires forall sealing :: sealing in log ==> sealing.Envelope(c).Ok?
    requires NotForged(c, log, Attempt(c, NewContext(sealId, record), envelope, reader))
    requires Attempt(c, NewContext(sealId, record), envelope, reader).Some?
    requires Decrypts(c, Attempt(c, NewContext(sealId, record), envelope, reader).value).Some?
    ensures exists sealing :: sealing in log
              && sealing.sealId == sealId && sealing.record == record
              && sealing.Envelope(c) == Ok(envelope)
              && Decrypts(c, Attempt(c, NewContext(sealId, record), envelope, reader).value)
                 == Some(sealing.plaintext.bytes)
  {
    AttemptParts(c, NewContext(sealId, record), envelope, reader);
    var call := Attempt(c, NewContext(sealId, record), envelope, reader).value;
    var sealing :| sealing in log && sealing.Call(c) == call;
    SameCallSameSealing(c, sealing, sealId, record, envelope, call);
    assert c.Seals(call.key, call.nonce, call.aad, sealing.plaintext.bytes);
  }

  /** Whatever opens under a seal ID and record ID was sealed under exactly those: the
      envelope is, byte for byte, one a logged sealing wrote, and opening it returns that
      sealing's value. */
  lemma OpensOnlyAsSealed(
    c: Primitives, log: set<Sealing>, sealId: Id, record: Option<RecordValue>, envelope: Bytes, reader: Ring)
    requires c.Lawful()
    requires NotForged(c, log, Attempt(c, NewContext(sealId, record), envelope, reader))
    requires forall sealing :: sealing in log ==> sealing.Envelope(c).Ok?
    requires Open(c, NewContext(sealId, record), envelope, reader).Ok?
    ensures exists sealing :: sealing in log
              && sealing.sealId == sealId && sealing.record == record
              && sealing.Envelope(c) == Ok(envelope)
              && sealing.Value() == Open(c, NewContext(sealId, record), envelope, reader)
  {
    var context := NewContext(sealId, record);
    OpenIsAttempt(c, context, envelope, reader);
    DecryptsOnlyAsSealed(c, log, sealId, record, envelope, reader);
    var sealing :| sealing in log
      && sealing.sealId == sealId && sealing.record == record
      && sealing.Envelope(c) == Ok(envelope)
      && Decrypts(c, Attempt(c, context, envelope, reader).value) == Some(sealing.plaintext.bytes);
    SealWithNonceParses(c, context, sealing.plaintext, sealing.key, sealing.nonce);
  }

  lemma SameCallSameSealing(
    c: Primitives, sealing: Sealing, sealId: Id, record: Option<RecordValue>, envelope: Bytes, call: AeadCall)
    requires sealing.Call(c) == call && sealing.Envelope(c).Ok?
    requires |envelope| >= HEADER_LEN + NONCE_LEN
    requires call.aad == EnvelopeAad(envelope[..HEADER_LEN + NONCE_LEN], Encode(sealId, record))
    requires envelope == envelope[..HEADER_LEN + NONCE_LEN] + call.output.ciphertext + call.output.tag
    ensures sealing.sealId == sealId && sealing.record == record && sealing.Envelope(c) == Ok(envelope)
  {
    var written := NewContext(sealing.sealId, sealing.record);
    var prefix := SealPrefix(written, sealing.plaintext.Padded?, sealing.key.id, sealing.nonce);
    AadInjective(prefix, sealing.sealId, sealing.record, envelope[..HEADER_LEN + NONCE_LEN], sealId, record);
  }

  /** Every sealing of the log that wrote `envelope` wrote it for this seal and record. */
  ghost predicate OnlySealedFor(
    c: Primitives, log: set<Sealing>, sealId: Id, record: Option<RecordValue>, envelope: Bytes)
  {
    forall sealing :: sealing in log ==>
      && sealing.Envelope(c).Ok?
      && (sealing.Envelope(c) == Ok(envelope) ==> sealing.sealId == sealId && sealing.record == record)
  }

  /** An envelope sealed for one record, and only for it, opens for no other seal ID or
      record ID: not even with every key at hand. */
  lemma OpensInNoOtherContext(
    c: Primitives, log: set<Sealing>, a: Id, r: Option<RecordValue>, b: Id, s: Option<RecordValue>,
    envelope: Bytes, reader: Ring)
    requires c.Lawful() && (a != b || r != s)
    requires NotForged(c, log, Attempt(c, NewContext(b, s), envelope, reader))
    requires OnlySealedFor(c, log, a, r, envelope)
    ensures Open(c, NewContext(b, s), envelope, reader).Err?
  {
    if Open(c, NewContext(b, s), envelope, reader).Ok? {
      OpensOnlyAsSealed(c, log, b, s, envelope, reader);
    }
  }

  /** What a reader of another context is told: the kind of record ID shows in the header,
      anything else only in the tag. */
  function ErrorElsewhere(r: Option<RecordValue>, s: Option<RecordValue>): Error {
    if KindOf(r) != KindOf(s) then ContextMismatch else AuthenticationFailed
  }

  /** The error is exact: an envelope that opens in its own context reports precisely
      `ErrorElsewhere` in every other. */
  lemma FailsElsewhereExactly(
    c: Primitives, log: set<Sealing>, a: Id, r: Option<RecordValue>, b: Id, s: Option<RecordValue>,
    envelope: Bytes, reader: Ring)
    requires c.Lawful() && (a != b || r != s)
    requires Open(c, NewContext(a, r), envelope, reader).Ok?
    requires NotForged(c, log, Attempt(c, NewContext(b, s), envelope, reader))
    requires OnlySealedFor(c, log, a, r, envelope)
    ensures Open(c, NewContext(b, s), envelope, reader) == Err(ErrorElsewhere(r, s))
  {
    var there := NewContext(b, s);
    FingerprintsDiffer(KindOf(r), KindOf(s));
    if KindOf(r) != KindOf(s) {
      OtherKindMismatches(c, NewContext(a, r), there, envelope, reader);
    } else {
      SameKindAttempts(c, NewContext(a, r), there, envelope, reader);
      if Decrypts(c, Attempt(c, there, envelope, reader).value).Some? {
        DecryptsOnlyAsSealed(c, log, b, s, envelope, reader);
      }
    }
  }

  lemma OtherKindMismatches(c: Primitives, here: Context, there: Context, envelope: Bytes, reader: Ring)
    requires here.fingerprint != there.fingerprint
    requires Open(c, here, envelope, reader).Ok?
    ensures Open(c, there, envelope, reader) == Err(ContextMismatch)
  {
  }

  lemma SameKindAttempts(c: Primitives, here: Context, there: Context, envelope: Bytes, reader: Ring)
    requires here.fingerprint == there.fingerprint
    requires Open(c, here, envelope, reader).Ok?
    ensures var attempt := Attempt(c, there, envelope, reader);
            && attempt.Some?
            && (Decrypts(c, attempt.value).None? ==>
                  Open(c, there, envelope, reader) == Err(AuthenticationFailed))
  {
  }

  // ----- Label separation -----

  /** Inputs under two labels differ, whatever follows them. */
  ghost predicate Disjoint(a: Bytes, b: Bytes) {
    exists i :: 0 <= i < |a| && i < |b| && a[i] != b[i]
  }

  lemma DisjointInputs(a: Bytes, x: Bytes, b: Bytes, y: Bytes)
    requires Disjoint(a, b)
    ensures a + x != b + y
  {
    var i :| 0 <= i < |a| && i < |b| && a[i] != b[i];
    assert (a + x)[i] == a[i] && (b + y)[i] == b[i];
  }

  lemma DifferAt(a: string, b: string, i: nat)
    requires i < |a| && i < |b| && a[i] as int < 256 && b[i] as int < 256 && a[i] != b[i]
    ensures Disjoint(Ascii(a) + [0], Ascii(b) + [0])
  {
    IntegerOfByte(a[i] as int);
    IntegerOfByte(b[i] as int);
    assert (Ascii(a) + [0])[i] == Ascii(a)[i] && (Ascii(b) + [0])[i] == Ascii(b)[i];
  }

  /** The four labels are pairwise prefix-disjoint, so no key derivation, AAD or index
      input of one kind equals one of another. */
  lemma LabelsAreDisjoint()
    ensures Disjoint(ENCRYPTION_KEY_LABEL, ENVELOPE_AAD_LABEL)
    ensures Disjoint(ENCRYPTION_KEY_LABEL, INDEX_KEY_LABEL)
    ensures Disjoint(ENCRYPTION_KEY_LABEL, INDEX_VALUE_LABEL)
    ensures Disjoint(ENVELOPE_AAD_LABEL, INDEX_KEY_LABEL)
    ensures Disjoint(ENVELOPE_AAD_LABEL, INDEX_VALUE_LABEL)
    ensures Disjoint(INDEX_KEY_LABEL, INDEX_VALUE_LABEL)
  {
    EnvelopeLabels();
    IndexLabels();
    CrossLabels();
  }

  /** No input of one kind is an input of another, whatever their parts: the two HKDF
      infos, the authenticated data, and the HMAC input of an index. */
  lemma InputsAreDisjoint(
    version: Byte, suite: Byte, keyId: Id, context: Bytes, prefix: Bytes, aadContext: Bytes,
    header: Bytes, indexContext: Bytes, indexId: Id, normalized: Bytes)
    ensures var key, aad := KeyInfo(version, suite, keyId, context), EnvelopeAad(prefix, aadContext);
            && key != aad
            && key != IndexKeyInfo(header, indexContext, indexId)
            && key != IndexInput(header, indexContext, indexId, normalized)
            && aad != IndexKeyInfo(header, indexContext, indexId)
            && aad != IndexInput(header, indexContext, indexId, normalized)
    ensures forall header', context', indexId' ::
              IndexKeyInfo(header', context', indexId') != IndexInput(header, indexContext, indexId, normalized)
  {
    LabelsAreDisjoint();
    var len := BigEndian(|normalized|, 8);
    var keyRest, aadRest := [version, suite] + (keyId + context), prefix + aadContext;
    var infoRest := header + (indexContext + (indexId + []));
    var inputRest := header + (indexContext + (indexId + (len + normalized)));
    InputsBegin(version, suite, keyId, context, prefix, aadContext);
    Regroup(INDEX_KEY_LABEL, header, indexContext, indexId, []);
    RegroupInput(INDEX_VALUE_LABEL, header, indexContext, indexId, len, normalized);
    DisjointInputs(ENCRYPTION_KEY_LABEL, keyRest, ENVELOPE_AAD_LABEL, aadRest);
    DisjointInputs(ENCRYPTION_KEY_LABEL, keyRest, INDEX_KEY_LABEL, infoRest);
    DisjointInputs(ENCRYPTION_KEY_LABEL, keyRest, INDEX_VALUE_LABEL, inputRest);
    DisjointInputs(ENVELOPE_AAD_LABEL, aadRest, INDEX_KEY_LABEL, infoRest);
    DisjointInputs(ENVELOPE_AAD_LABEL, aadRest, INDEX_VALUE_LABEL, inputRest);
    forall header': Bytes, context': Bytes, indexId': Id
      ensures IndexKeyInfo(header', context', indexId') != IndexInput(header, indexContext, indexId, normalized)
    {
      Regroup(INDEX_KEY_LABEL, header', context', indexId', []);
      DisjointInputs(INDEX_KEY_LABEL, header' + (context' + (indexId' + [])), INDEX_VALUE_LABEL, inputRest);
    }
  }

  lemma InputsBegin(version: Byte, suite: Byte, keyId: Id, context: Bytes, prefix: Bytes, aadContext: Bytes)
    ensures KeyInfo(version, suite, keyId, context) == ENCRYPTION_KEY_LABEL + ([version, suite] + (keyId + context))
    ensures EnvelopeAad(prefix, aadContext) == ENVELOPE_AAD_LABEL + (prefix + aadContext)
  {
  }

  lemma EnvelopeLabels()
    ensures Disjoint(ENCRYPTION_KEY_LABEL, ENVELOPE_AAD_LABEL)
  {
    DifferAt("cryptbox/encryption-key/v1", "cryptbox/envelope-aad/v1", 11);
  }

  lemma IndexLabels()
    ensures Disjoint(INDEX_KEY_LABEL, INDEX_VALUE_LABEL)
  {
    DifferAt("cryptbox/blind-index-key/v1", "cryptbox/blind-index-value/v1", 21);
  }

  lemma CrossLabels()
    ensures Disjoint(ENCRYPTION_KEY_LABEL, INDEX_KEY_LABEL)
    ensures Disjoint(ENCRYPTION_KEY_LABEL, INDEX_VALUE_LABEL)
    ensures Disjoint(ENVELOPE_AAD_LABEL, INDEX_KEY_LABEL)
    ensures Disjoint(ENVELOPE_AAD_LABEL, INDEX_VALUE_LABEL)
  {
    DifferAt("cryptbox/encryption-key/v1", "cryptbox/blind-index-key/v1", 9);
    DifferAt("cryptbox/encryption-key/v1", "cryptbox/blind-index-value/v1", 9);
    DifferAt("cryptbox/envelope-aad/v1", "cryptbox/blind-index-key/v1", 9);
    DifferAt("cryptbox/envelope-aad/v1", "cryptbox/blind-index-value/v1", 9);
  }
}
