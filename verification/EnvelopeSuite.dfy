/** Suite 1 (src/envelope/suite.rs and src/envelope/suite/xchacha20_poly1305.rs): how
    an envelope's key is derived, what its tag authenticates, and its layout. */
module EnvelopeSuite {
  import opened Bytes
  import opened Crypto
  import opened EnvelopeFormat
  import opened Keyrings
  import opened PaddingPolicy
  import opened SealContexts
  import opened Wrappers

  const ENCRYPTION_KEY_LABEL: Bytes := Ascii("cryptbox/encryption-key/v1") + [0]
  const ENVELOPE_AAD_LABEL: Bytes := Ascii("cryptbox/envelope-aad/v1") + [0]

  /** The AEAD's message. Which variant it is becomes the padded flag of the header. */
  datatype AeadPlaintext = Unpadded(bytes: Bytes) | Padded(bytes: Bytes)

  function NewPlaintext(padding: Padding, plaintext: Bytes): Result<AeadPlaintext>
    requires padding.Valid()
  {
    var padded :- Pad(padding, plaintext);
    match padded
    case None => Ok(Unpadded(plaintext))
    case Some(padded) => Ok(Padded(padded))
  }

  function KeyInfo(formatVersion: Byte, suiteId: Byte, keyId: Id, context: Bytes): Bytes {
    ENCRYPTION_KEY_LABEL + [formatVersion, suiteId] + keyId + context
  }

  function EnvelopeAad(prefix: Bytes, context: Bytes): Bytes {
    ENVELOPE_AAD_LABEL + prefix + context
  }

  function OperationalKey(c: Primitives, root: Key, context: Bytes): Bytes {
    c.hkdf(root.material, KeyInfo(FORMAT_VERSION, XCHACHA20_POLY1305, root.id, context))
  }

  /** One call of the AEAD. */
  datatype AeadCall = AeadCall(key: Bytes, nonce: Bytes, aad: Bytes, output: AeadOutput)

  function SealPrefix(context: Context, padded: bool, keyId: Id, nonce: Nonce): Bytes {
    EnvelopeHeader(XCHACHA20_POLY1305, padded, keyId, context.fingerprint) + nonce
  }

  /** The AEAD call that seals `plaintext`. */
  function SealCall(c: Primitives, context: Context, plaintext: AeadPlaintext, key: Key, nonce: Nonce): AeadCall {
    var aad := EnvelopeAad(SealPrefix(context, plaintext.Padded?, key.id, nonce), context.bytes);
    var operationalKey := OperationalKey(c, key, context.bytes);
    AeadCall(operationalKey, nonce, aad, c.encrypt(operationalKey, nonce, aad, plaintext.bytes))
  }

  function SealWithNonce(
    c: Primitives, context: Context, plaintext: AeadPlaintext, key: Key, nonce: Nonce): Result<Bytes>
  {
    if HEADER_LEN + NONCE_LEN + TAG_LEN + |plaintext.bytes| > USIZE_MAX then Err(MessageTooLong) else
    var _ :- CheckMessageLen(|plaintext.bytes|);
    var output := SealCall(c, context, plaintext, key, nonce).output;
    Ok(SealPrefix(context, plaintext.Padded?, key.id, nonce) + output.ciphertext + output.tag)
  }

  /** The AEAD call that opens `envelope` as a value of `context` under `key`, if the
      envelope is long enough to make one. */
  function OpenCall(c: Primitives, context: Context, envelope: ParsedEnvelope, key: Key): Result<AeadCall> {
    var prefixLen := |envelope.header| + NONCE_LEN;
    if |envelope.bytes| < prefixLen then Err(InvalidEnvelope) else
    var prefix, body := envelope.bytes[..prefixLen], envelope.bytes[prefixLen..];
    if |body| < TAG_LEN then Err(AuthenticationFailed) else
    var output := AeadOutput(body[..|body| - TAG_LEN], body[|body| - TAG_LEN..]);
    Ok(AeadCall(OperationalKey(c, key, context.bytes), prefix[prefixLen - NONCE_LEN..],
                EnvelopeAad(prefix, context.bytes), output))
  }

  function OpenSuite(c: Primitives, context: Context, envelope: ParsedEnvelope, key: Key): Result<Bytes> {
    var call :- OpenCall(c, context, envelope, key);
    match c.decrypt(call.key, call.nonce, call.aad, call.output)
    case None => Err(AuthenticationFailed)
    case Some(plaintext) => Ok(plaintext)
  }

  // ----- Length framing: every derivation and authentication input is injective -----

  /** Equal key-derivation inputs agree in format version, suite, key ID, and context. */
  lemma KeyInfoInjective(
    v: Byte, s: Byte, k: Id, context: Bytes, v': Byte, s': Byte, k': Id, context': Bytes)
    requires KeyInfo(v, s, k, context) == KeyInfo(v', s', k', context')
    ensures v == v' && s == s' && k == k' && context == context'
  {
    var a, b := KeyInfo(v, s, k, context), KeyInfo(v', s', k', context');
    assert a == ENCRYPTION_KEY_LABEL + ([v, s] + (k + context));
    assert b == ENCRYPTION_KEY_LABEL + ([v', s'] + (k' + context'));
    SplitEqual(ENCRYPTION_KEY_LABEL, [v, s] + (k + context), ENCRYPTION_KEY_LABEL, [v', s'] + (k' + context'));
    SplitEqual([v, s], k + context, [v', s'], k' + context');
    SplitEqual(k, context, k', context');
    assert [v, s][0] == [v', s'][0] && [v, s][1] == [v', s'][1];
  }

  lemma AadParts(prefix: Bytes, context: Bytes, prefix': Bytes, context': Bytes)
    requires |prefix| == |prefix'|
    requires EnvelopeAad(prefix, context) == EnvelopeAad(prefix', context')
    ensures prefix == prefix' && context == context'
  {
    assert EnvelopeAad(prefix, context) == ENVELOPE_AAD_LABEL + (prefix + context);
    assert EnvelopeAad(prefix', context') == ENVELOPE_AAD_LABEL + (prefix' + context');
    SplitEqual(ENVELOPE_AAD_LABEL, prefix + context, ENVELOPE_AAD_LABEL, prefix' + context');
    SplitEqual(prefix, context, prefix', context');
  }

  /** The AAD binds the exact stored prefix and the whole context: equal AADs have
      equal headers, nonces, seal IDs, and record IDs. */
  lemma AadInjective(
    prefix: Bytes, a: Id, r: Option<RecordValue>, prefix': Bytes, b: Id, s: Option<RecordValue>)
    requires |prefix| == |prefix'|
    requires EnvelopeAad(prefix, Encode(a, r)) == EnvelopeAad(prefix', Encode(b, s))
    ensures prefix == prefix' && a == b && r == s
  {
    var x, y := Encode(a, r), Encode(b, s);
    AadParts(prefix, x, prefix', y);
    assert x + [] == x && y + [] == y;
    EncodePrefixFree(a, r, [], b, s, []);
  }

  // ----- The buffer operations -----

  /** Extends `out` by the AEAD output, written over room made for it. */
  method EncryptInto(c: Primitives, key: Bytes, nonce: Nonce, aad: Bytes, plaintext: Bytes, out: Bytes)
    returns (r: Result<Bytes>)
    requires c.Lawful()
    ensures r.Ok? <==> |plaintext| <= MAX_MESSAGE_LEN && |out| + |plaintext| <= USIZE_MAX
    ensures r.Err? ==> r == Err(MessageTooLong)
    ensures r.Ok? ==> var output := c.encrypt(key, nonce, aad, plaintext);
                      r.value == out + output.ciphertext + output.tag
  {
    if CheckMessageLen(|plaintext|).Err? {
      return Err(MessageTooLong);
    }
    var start := |out|;
    if start + |plaintext| > USIZE_MAX {
      return Err(MessageTooLong);
    }
    // The AEAD writes over the zeros it was given room for.
    var buffer := out + Zeros(|plaintext|);
    var output := c.encrypt(key, nonce, aad, plaintext);
    assert c.Seals(key, nonce, aad, plaintext);
    buffer := buffer[..start] + output.ciphertext + buffer[start + |output.ciphertext|..];
    return Ok(buffer + output.tag);
  }

  /** Grows an envelope from its header to its tag; the AAD is the buffer so far. */
  method SealInto(c: Primitives, context: Context, plaintext: AeadPlaintext, key: Key, nonce: Nonce)
    returns (r: Result<Bytes>)
    requires c.Lawful()
    ensures r == SealWithNonce(c, context, plaintext, key, nonce)
  {
    var envelope := EnvelopeHeader(XCHACHA20_POLY1305, plaintext.Padded?, key.id, context.fingerprint);
    if |envelope| + NONCE_LEN + TAG_LEN + |plaintext.bytes| > USIZE_MAX {
      return Err(MessageTooLong);
    }
    envelope := envelope + nonce;
    var aad := EnvelopeAad(envelope, context.bytes);
    var operationalKey := OperationalKey(c, key, context.bytes);
    r := EncryptInto(c, operationalKey, nonce, aad, plaintext.bytes, envelope);
  }
}
