/** Sealing and opening (src/envelope.rs and src/bound.rs): opening first
    matches the stored fingerprint with the reader's, then takes the key that the envelope
    names, and finally unpads if, and only if, the header is flagged so. */
module Envelopes {
  import opened Bytes
  import opened Crypto
  import opened EnvelopeFormat
  import opened EnvelopeSuite
  import opened Keyrings
  import opened PaddingPolicy
  import opened SealContexts
  import opened Wrappers

  /** What the operating system's random source returns to one sealing. */
  type Entropy = Result<Nonce>

  function Seal(
    c: Primitives, context: Context, padding: Padding, plaintext: Bytes, keyring: Ring, entropy: Entropy): Result<Bytes>
    requires padding.Valid()
  {
    var plaintext :- NewPlaintext(padding, plaintext);
    var nonce :- entropy;
    SealWithNonce(c, context, plaintext, keyring.current, nonce)
  }

  datatype CheckedEnvelope = CheckedEnvelope(suite: Suite, parsed: ParsedEnvelope, context: Context) {
    function Open(c: Primitives, keyring: Ring): Result<Bytes> {
      var keyId := parsed.info.keyId;
      match keyring.Get(keyId)
      case None => Err(UnknownEncryptionKey(keyId))
      case Some(key) =>
        var plaintext :- OpenSuite(c, context, parsed, key);
        if parsed.info.padded then Unpad(plaintext) else Ok(plaintext)
    }

    predicate NeedsReseal(padding: Padding, keyring: Ring) {
      || parsed.info.suiteId != ACTIVE.SuiteId()
      || parsed.info.keyId != keyring.current.id
      || parsed.info.padded != padding.IsPadded()
    }
  }

  function Check(context: Context, ciphertext: Bytes): Result<CheckedEnvelope> {
    var (suite, parsed) :- ParseSupported(ciphertext);
    if parsed.info.fingerprint != context.fingerprint then Err(ContextMismatch)
    else Ok(CheckedEnvelope(suite, parsed, context))
  }

  function Open(c: Primitives, context: Context, ciphertext: Bytes, keyring: Ring): Result<Bytes> {
    var checked :- Check(context, ciphertext);
    checked.Open(c, keyring)
  }

  /** Decides from the header alone; the context is given by its fingerprint. */
  function NeedsReseal(fingerprint: Fingerprint, padding: Padding, ciphertext: Bytes, keyring: Ring): Result<bool> {
    var checked :- Check(Context([], fingerprint), ciphertext);
    Ok(checked.NeedsReseal(padding, keyring))
  }

  datatype Resealed = Resealed(plaintext: Bytes, ciphertext: Bytes)

  function Reseal(
    c: Primitives, source: Context, sourceKeyring: Ring, target: Context, targetKeyring: Ring,
    padding: Padding, ciphertext: Bytes, entropy: Entropy): Result<Resealed>
    requires padding.Valid()
  {
    var plaintext :- Open(c, source, ciphertext, sourceKeyring);
    var ciphertext :- Seal(c, target, padding, plaintext, targetKeyring, entropy);
    Ok(Resealed(plaintext, ciphertext))
  }

  // ----- What sealing writes -----

  /** An envelope parses to the metadata it was sealed with. */
  lemma SealParses(
    c: Primitives, context: Context, padding: Padding, plaintext: Bytes, keyring: Ring, entropy: Entropy)
    requires c.Lawful() && padding.Valid()
    requires Seal(c, context, padding, plaintext, keyring, entropy).Ok?
    ensures var envelope := Seal(c, context, padding, plaintext, keyring, entropy).value;
            InspectCiphertext(envelope)
              == Ok(CiphertextInfo(ACTIVE.SuiteId(), padding.IsPadded(), keyring.current.id, context.fingerprint))
  {
    var aead, nonce := NewPlaintext(padding, plaintext).value, entropy.value;
    UnpadPad(padding, plaintext);
    SealWithNonceParses(c, context, aead, keyring.current, nonce);
  }

  lemma SealWithNonceParses(c: Primitives, context: Context, plaintext: AeadPlaintext, key: Key, nonce: Nonce)
    requires c.Lawful()
    requires SealWithNonce(c, context, plaintext, key, nonce).Ok?
    ensures var header := EnvelopeHeader(ACTIVE.SuiteId(), plaintext.Padded?, key.id, context.fingerprint);
            var output := SealCall(c, context, plaintext, key, nonce).output;
            var payload := nonce + output.ciphertext + output.tag;
            var envelope := SealWithNonce(c, context, plaintext, key, nonce).value;
            && envelope == header + payload
            && ParseSupported(envelope) == Ok((ACTIVE, ParsedEnvelope(
                 CiphertextInfo(ACTIVE.SuiteId(), plaintext.Padded?, key.id, context.fingerprint),
                 if plaintext.Padded? then 1 else 0, envelope, header, payload)))
  {
    var call := SealCall(c, context, plaintext, key, nonce);
    assert c.Seals(call.key, call.nonce, call.aad, plaintext.bytes);
    var payload := nonce + call.output.ciphertext + call.output.tag;
    ParsePrint(ACTIVE, plaintext.Padded?, key.id, context.fingerprint, payload);
    assert SealWithNonce(c, context, plaintext, key, nonce).value
        == EnvelopeHeader(ACTIVE.SuiteId(), plaintext.Padded?, key.id, context.fingerprint) + payload;
  }

  /** Sealing fails only for want of padding room, randomness, or message room, in
      that order, and the message limit is the one parsing enforces. */
  lemma SealSucceedsExactly(
    c: Primitives, context: Context, padding: Padding, plaintext: Bytes, keyring: Ring, entropy: Entropy)
    requires padding.Valid()
    ensures Seal(c, context, padding, plaintext, keyring, entropy).Ok?
       <==> && Target(padding, |plaintext|).Ok?
            && entropy.Ok?
            && (match Target(padding, |plaintext|).value
                case None => |plaintext| <= MAX_MESSAGE_LEN
                case Some(target) => target <= MAX_MESSAGE_LEN)
    ensures Seal(c, context, padding, plaintext, keyring, entropy).Err? ==>
              Seal(c, context, padding, plaintext, keyring, entropy).error
                == match Target(padding, |plaintext|)
                   case Err(error) => error
                   case Ok(_) => if entropy.Err? then entropy.error else MessageTooLong
  {
    TargetFits(padding, |plaintext|);
  }

  /** What is encrypted: the plaintext, or it, the marker and zeros up to the target. */
  function Message(padding: Padding, plaintext: Bytes): Bytes
    requires padding.Valid() && Target(padding, |plaintext|).Ok?
  {
    match Target(padding, |plaintext|).value
    case None => plaintext
    case Some(target) =>
      TargetFits(padding, |plaintext|);
      plaintext + [0x80] + Zeros(target - |plaintext| - 1)
  }

  /** Sealing, in terms of the primitives alone: the header names suite, flag, key and kind
      of context; the AEAD's key comes from the root key, its ID and the context; and it
      authenticates header, nonce and context. */
  lemma SealWrites(
    c: Primitives, context: Context, padding: Padding, plaintext: Bytes, keyring: Ring, entropy: Entropy)
    requires c.Lawful() && padding.Valid()
    requires Seal(c, context, padding, plaintext, keyring, entropy).Ok?
    ensures Target(padding, |plaintext|).Ok? && entropy.Ok?
    ensures var key, message := keyring.current, Message(padding, plaintext);
            var header := EnvelopeHeader(1, padding.IsPadded(), key.id, context.fingerprint);
            var output := c.encrypt(c.hkdf(key.material, KeyInfo(2, 1, key.id, context.bytes)), entropy.value,
                                    EnvelopeAad(header + entropy.value, context.bytes), message);
            && (Target(padding, |plaintext|).value.Some? ==> |message| == Target(padding, |plaintext|).value.value)
            && Seal(c, context, padding, plaintext, keyring, entropy)
               == Ok(header + entropy.value + output.ciphertext + output.tag)
            && |output.ciphertext| == |message| && |output.tag| == 16
  {
    TargetFits(padding, |plaintext|);
    var aead := NewPlaintext(padding, plaintext).value;
    assert aead.bytes == Message(padding, plaintext) && (aead.Padded? <==> padding.IsPadded());
    var call := SealCall(c, context, aead, keyring.current, entropy.value);
    assert c.Seals(call.key, call.nonce, call.aad, aead.bytes);
  }

  /** Opening, in terms of the primitives alone, and every error in its order: what does not
      parse, another kind of context, a key the ring lacks, a tag that does not verify, and
      padding that is none. */
  lemma OpenReads(
    c: Primitives, context: Context, envelope: Bytes, keyring: Ring, info: CiphertextInfo, key: Key)
    requires keyring.Valid()
    ensures InspectCiphertext(envelope).Err? ==>
              Open(c, context, envelope, keyring) == Err(InspectCiphertext(envelope).error)
    ensures InspectCiphertext(envelope) == Ok(info) && info.fingerprint != context.fingerprint ==>
              Open(c, context, envelope, keyring) == Err(ContextMismatch)
    ensures InspectCiphertext(envelope) == Ok(info) && info.fingerprint == context.fingerprint
            && (forall k :: k in keyring.keys ==> k.id != info.keyId) ==>
              Open(c, context, envelope, keyring) == Err(UnknownEncryptionKey(info.keyId))
    ensures InspectCiphertext(envelope) == Ok(info) && info.fingerprint == context.fingerprint
            && key in keyring.keys && key.id == info.keyId ==>
              && |envelope| >= 71
              && var body := envelope[55..];
                 Open(c, context, envelope, keyring)
                   == Decrypted(info.padded,
                        c.decrypt(c.hkdf(key.material, KeyInfo(2, 1, key.id, context.bytes)), envelope[31..55],
                                  EnvelopeAad(envelope[..55], context.bytes),
                                  AeadOutput(body[..|body| - 16], body[|body| - 16..])))
  {
    GetExact(keyring, info.keyId, key);
    if keyring.Get(info.keyId).Some? {
      GetExact(keyring, info.keyId, keyring.Get(info.keyId).value);
    }
    if InspectCiphertext(envelope) == Ok(info) {
      PrintParse(envelope);
      assert envelope[..55][31..] == envelope[31..55];
    }
  }

  /** What a reader makes of what the AEAD returned. */
  function Decrypted(padded: bool, message: Option<Bytes>): Result<Bytes> {
    match message
    case None => Err(AuthenticationFailed)
    case Some(message) => if padded then Unpad(message) else Ok(message)
  }

  // ----- Round trips -----

  /** The reader's call on a sealed envelope is the writer's call. */
  lemma OpenCallOfSeal(c: Primitives, context: Context, plaintext: AeadPlaintext, key: Key, nonce: Nonce)
    requires c.Lawful()
    requires SealWithNonce(c, context, plaintext, key, nonce).Ok?
    ensures var bytes := SealWithNonce(c, context, plaintext, key, nonce).value;
            && ParseSupported(bytes).Ok?
            && OpenCall(c, context, ParseSupported(bytes).value.1, key)
               == Ok(SealCall(c, context, plaintext, key, nonce))
  {
    SealWithNonceParses(c, context, plaintext, key, nonce);
    var bytes := SealWithNonce(c, context, plaintext, key, nonce).value;
    var call := SealCall(c, context, plaintext, key, nonce);
    assert c.Seals(call.key, call.nonce, call.aad, plaintext.bytes);
    var prefix := SealPrefix(context, plaintext.Padded?, key.id, nonce);
    var body := call.output.ciphertext + call.output.tag;
    assert bytes == prefix + body;
    assert bytes[..|prefix|] == prefix && bytes[|prefix|..] == body;
    assert prefix[HEADER_LEN..] == nonce;
    assert body[..|body| - TAG_LEN] == call.output.ciphertext && body[|body| - TAG_LEN..] == call.output.tag;
  }

  /** Every reader keyring that still holds the writer's key opens what was sealed to
      exactly the plaintext, whatever padding policy the reader now has. */
  lemma OpenSeal(
    c: Primitives, context: Context, padding: Padding, plaintext: Bytes, writer: Ring, entropy: Entropy, reader: Ring)
    requires c.Lawful() && padding.Valid()
    requires reader.Get(writer.current.id) == Some(writer.current)
    requires Seal(c, context, padding, plaintext, writer, entropy).Ok?
    ensures Open(c, context, Seal(c, context, padding, plaintext, writer, entropy).value, reader) == Ok(plaintext)
  {
    var aead, nonce, key := NewPlaintext(padding, plaintext).value, entropy.value, writer.current;
    UnpadPad(padding, plaintext);
    SealWithNonceParses(c, context, aead, key, nonce);
    OpenCallOfSeal(c, context, aead, key, nonce);
    var call := SealCall(c, context, aead, key, nonce);
    assert c.Seals(call.key, call.nonce, call.aad, aead.bytes);
  }

  /** A rewrite is due exactly when the suite, the key generation, or the padding flag
      is not the writer's; a malformed or foreign envelope is an error, not a rewrite. */
  lemma NeedsResealExactly(fingerprint: Fingerprint, padding: Padding, ciphertext: Bytes, keyring: Ring)
    ensures InspectCiphertext(ciphertext).Err? ==>
              NeedsReseal(fingerprint, padding, ciphertext, keyring) == Err(InspectCiphertext(ciphertext).error)
    ensures InspectCiphertext(ciphertext).Ok? ==>
              var info := InspectCiphertext(ciphertext).value;
              NeedsReseal(fingerprint, padding, ciphertext, keyring)
                == if info.fingerprint != fingerprint then Err(ContextMismatch)
                   else Ok(info
                           != CiphertextInfo(ACTIVE.SuiteId(), padding.IsPadded(), keyring.current.id, fingerprint))
  {
  }

  /** A reseal keeps the plaintext, opens in its target context, and needs no other. */
  lemma ResealIsCurrent(
    c: Primitives, source: Context, sourceKeyring: Ring, target: Context, targetKeyring: Ring,
    padding: Padding, ciphertext: Bytes, entropy: Entropy)
    requires c.Lawful() && padding.Valid() && targetKeyring.Valid()
    requires Reseal(c, source, sourceKeyring, target, targetKeyring, padding, ciphertext, entropy).Ok?
    ensures var resealed := Reseal(c, source, sourceKeyring, target, targetKeyring, padding, ciphertext, entropy).value;
            && Open(c, source, ciphertext, sourceKeyring) == Ok(resealed.plaintext)
            && Open(c, target, resealed.ciphertext, targetKeyring) == Ok(resealed.plaintext)
            && InspectCiphertext(resealed.ciphertext).Ok?
            && NeedsReseal(target.fingerprint, padding, resealed.ciphertext, targetKeyring) == Ok(false)
  {
    var plaintext := Open(c, source, ciphertext, sourceKeyring).value;
    GetExact(targetKeyring, targetKeyring.current.id, targetKeyring.current);
    SealParses(c, target, padding, plaintext, targetKeyring, entropy);
    OpenSeal(c, target, padding, plaintext, targetKeyring, entropy, targetKeyring);
    NeedsResealExactly(target.fingerprint, padding,
      Seal(c, target, padding, plaintext, targetKeyring, entropy).value, targetKeyring);
  }

  lemma MismatchByFingerprint(
    c: Primitives, written: Context, expected: Context,
    padding: Padding, plaintext: Bytes, keyring: Ring, entropy: Entropy, reader: Ring)
    requires c.Lawful() && padding.Valid()
    requires Seal(c, written, padding, plaintext, keyring, entropy).Ok?
    ensures var envelope := Seal(c, written, padding, plaintext, keyring, entropy).value;
            Open(c, expected, envelope, reader) == Err(ContextMismatch) <==> written.fingerprint != expected.fingerprint
  {
    SealParses(c, written, padding, plaintext, keyring, entropy);
  }

  /** A reader of another context reports `ContextMismatch` for a sealed envelope
      exactly when the kinds of record ID differ, before any key lookup. */
  lemma ContextMismatchExactly(
    c: Primitives, a: Id, r: Option<RecordValue>, b: Id, s: Option<RecordValue>,
    padding: Padding, plaintext: Bytes, keyring: Ring, entropy: Entropy, reader: Ring)
    requires c.Lawful() && padding.Valid()
    requires Seal(c, NewContext(a, r), padding, plaintext, keyring, entropy).Ok?
    ensures var envelope := Seal(c, NewContext(a, r), padding, plaintext, keyring, entropy).value;
            Open(c, NewContext(b, s), envelope, reader) == Err(ContextMismatch) <==> KindOf(r) != KindOf(s)
  {
    FingerprintsDiffer(KindOf(r), KindOf(s));
    MismatchByFingerprint(c, NewContext(a, r), NewContext(b, s), padding, plaintext, keyring, entropy, reader);
  }

  /** Once an envelope needs no reseal, the previous keys are dead weight: a reader
      holding the current key alone reads exactly the same. */
  lemma CurrentEnvelopeNeedsNoPreviousKeys(
    c: Primitives, context: Context, padding: Padding, ciphertext: Bytes, keyring: Ring)
    requires keyring.Valid()
    requires NeedsReseal(context.fingerprint, padding, ciphertext, keyring) == Ok(false)
    ensures Open(c, context, ciphertext, keyring) == Open(c, context, ciphertext, CurrentOnly(keyring))
  {
    var id, key := keyring.current.id, keyring.current;
    GetExact(keyring, id, key);
    GetExact(CurrentOnly(keyring), id, key);
  }
}
