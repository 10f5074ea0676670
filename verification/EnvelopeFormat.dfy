/** The stored envelope (src/envelope/format.rs and the payload bounds of
    src/envelope/suite/xchacha20_poly1305.rs): a fixed 31-byte header, then a
    24-byte nonce, the ciphertext, and a 16-byte tag. */
module EnvelopeFormat {
  import opened Bytes
  import opened SealContexts
  import opened Wrappers

  const MAGIC: Bytes := [0x43, 0x42, 0x58, 0x00]
  const FORMAT_VERSION: Byte := 2
  const FLAG_PADDED: Byte := 0x01
  const HEADER_LEN: nat := 31

  const NONCE_LEN: nat := 24
  const TAG_LEN: nat := 16
  const XCHACHA20_POLY1305: Byte := 1

  /** One byte below the limit of section 2.8 of RFC 8439, `(2^32 - 1) * 64`. */
  const MAX_MESSAGE_LEN: nat := 274_877_906_879

  /** Unauthenticated metadata of an envelope. */
  datatype CiphertextInfo = CiphertextInfo(suiteId: Byte, padded: bool, keyId: Id, fingerprint: Fingerprint)

  datatype ParsedEnvelope = ParsedEnvelope(
    info: CiphertextInfo, flags: Byte, bytes: Bytes, header: Bytes, suitePayload: Bytes)

  /** The suites the library reads and writes. */
  datatype Suite = XChaCha20Poly1305 {
    function SuiteId(): Byte {
      XCHACHA20_POLY1305
    }
  }

  const ACTIVE: Suite := XChaCha20Poly1305

  predicate IsCiphertext(bytes: Bytes) {
    MAGIC <= bytes
  }

  predicate PaddedFlag(flags: Byte) {
    flags & FLAG_PADDED != 0
  }

  predicate ReservedFlags(flags: Byte) {
    flags & !FLAG_PADDED != 0
  }

  /** Structure first: magic, then the version, which a shorter later header still
      carries, then the length. */
  function ParseEnvelope(bytes: Bytes): Result<ParsedEnvelope> {
    if !IsCiphertext(bytes) then Err(NotCiphertext)
    else if |bytes| == 4 then Err(InvalidEnvelope)
    else if bytes[4] != FORMAT_VERSION then Err(UnsupportedFormatVersion(bytes[4]))
    else if |bytes| < HEADER_LEN then Err(InvalidEnvelope)
    else
      var info := CiphertextInfo(bytes[5], PaddedFlag(bytes[6]), bytes[7..23], bytes[23..31]);
      Ok(ParsedEnvelope(info, bytes[6], bytes, bytes[..HEADER_LEN], bytes[HEADER_LEN..]))
  }

  function SuiteFromId(id: Byte): Result<Suite> {
    if id == XCHACHA20_POLY1305 then Ok(XChaCha20Poly1305) else Err(UnsupportedSuite(id))
  }

  function CheckFlags(envelope: ParsedEnvelope): Result<()> {
    if ReservedFlags(envelope.flags) then Err(UnsupportedFlags(envelope.flags)) else Ok(())
  }

  function CheckMessageLen(len: nat): Result<()> {
    if len > MAX_MESSAGE_LEN then Err(MessageTooLong) else Ok(())
  }

  function ValidatePayload(payload: Bytes): Result<()> {
    if |payload| < NONCE_LEN + TAG_LEN then Err(InvalidEnvelope)
    else CheckMessageLen(|payload| - (NONCE_LEN + TAG_LEN))
  }

  /** Parses and applies every check that needs no key. The order shows in the errors: an
      unknown suite hides reserved flags, and both hide a payload out of range. */
  function ParseSupported(bytes: Bytes): Result<(Suite, ParsedEnvelope)> {
    var envelope :- ParseEnvelope(bytes);
    var suite :- SuiteFromId(envelope.info.suiteId);
    var _ :- CheckFlags(envelope);
    var _ :- ValidatePayload(envelope.suitePayload);
    Ok((suite, envelope))
  }

  function InspectCiphertext(bytes: Bytes): Result<CiphertextInfo> {
    var supported :- ParseSupported(bytes);
    Ok(supported.1.info)
  }

  function EnvelopeHeader(suiteId: Byte, padded: bool, keyId: Id, fingerprint: Fingerprint): Bytes {
    MAGIC + [FORMAT_VERSION, suiteId, if padded then 1 else 0] + keyId + fingerprint
  }

  /** Payload lengths a supported suite accepts. */
  predicate PayloadInRange(len: nat) {
    NONCE_LEN + TAG_LEN <= len <= NONCE_LEN + MAX_MESSAGE_LEN + TAG_LEN
  }

  // ----- Parsing and printing are mutually inverse -----

  lemma FlagBits(flags: Byte)
    ensures !ReservedFlags(flags) <==> flags == 0 || flags == 1
    ensures !ReservedFlags(flags) ==> (PaddedFlag(flags) <==> flags == 1)
  {
  }

  lemma HeaderSlices(suiteId: Byte, padded: bool, keyId: Id, fingerprint: Fingerprint, payload: Bytes, bytes: Bytes)
    requires bytes == EnvelopeHeader(suiteId, padded, keyId, fingerprint) + payload
    ensures |bytes| == HEADER_LEN + |payload| && IsCiphertext(bytes)
    ensures bytes[4] == FORMAT_VERSION && bytes[5] == suiteId && bytes[6] == if padded then 1 else 0
    ensures bytes[7..23] == keyId && bytes[23..31] == fingerprint
    ensures bytes[..HEADER_LEN] == EnvelopeHeader(suiteId, padded, keyId, fingerprint)
    ensures bytes[HEADER_LEN..] == payload
  {
    assert bytes[..4] == MAGIC;
  }

  /** A printed header followed by a payload in range parses back to its fields. */
  lemma ParsePrint(suite: Suite, padded: bool, keyId: Id, fingerprint: Fingerprint, payload: Bytes)
    requires PayloadInRange(|payload|)
    ensures var header := EnvelopeHeader(suite.SuiteId(), padded, keyId, fingerprint);
            ParseSupported(header + payload) == Ok((suite, ParsedEnvelope(
              CiphertextInfo(suite.SuiteId(), padded, keyId, fingerprint),
              if padded then 1 else 0, header + payload, header, payload)))
  {
    var bytes := EnvelopeHeader(suite.SuiteId(), padded, keyId, fingerprint) + payload;
    HeaderSlices(suite.SuiteId(), padded, keyId, fingerprint, payload, bytes);
    FlagBits(bytes[6]);
  }

  /** An accepted envelope is the header rebuilt from its parsed fields, followed by
      a payload in range: the header has no byte the parse does not report. */
  lemma PrintParse(bytes: Bytes)
    requires ParseSupported(bytes).Ok?
    ensures var (suite, envelope) := ParseSupported(bytes).value;
            && var info := envelope.info;
            && info.suiteId == suite.SuiteId()
            && envelope.header == EnvelopeHeader(info.suiteId, info.padded, info.keyId, info.fingerprint)
            && bytes == envelope.header + envelope.suitePayload
            && PayloadInRange(|envelope.suitePayload|)
  {
    FlagBits(bytes[6]);
    var info := ParseEnvelope(bytes).value.info;
    assert bytes[..4] == MAGIC;
    assert bytes[..HEADER_LEN]
        == bytes[..4] + [bytes[4], bytes[5], bytes[6]] + bytes[7..23] + bytes[23..31];
    assert bytes[6] == if info.padded then 1 else 0;
  }

  /** The accepted envelopes are exactly the printed ones with a payload in range. */
  lemma AcceptedEnvelopes(bytes: Bytes)
    ensures InspectCiphertext(bytes).Ok? <==>
      exists padded, keyId: Id, fingerprint: Fingerprint, payload: Bytes ::
        && PayloadInRange(|payload|)
        && bytes == EnvelopeHeader(XCHACHA20_POLY1305, padded, keyId, fingerprint) + payload
  {
    if InspectCiphertext(bytes).Ok? {
      PrintParse(bytes);
    }
    forall padded, keyId: Id, fingerprint: Fingerprint, payload: Bytes
      | PayloadInRange(|payload|) && bytes == EnvelopeHeader(XCHACHA20_POLY1305, padded, keyId, fingerprint) + payload
      ensures InspectCiphertext(bytes).Ok?
    {
      ParsePrint(XChaCha20Poly1305, padded, keyId, fingerprint, payload);
    }
  }

  // ----- What each string is reported as, byte by byte -----

  /** The magic, a version, and anything. */
  function Versioned(version: Byte, rest: Bytes): Bytes {
    [0x43, 0x42, 0x58, 0x00, version] + rest
  }

  /** The magic, version 2, and the fields of its header, and a payload. */
  function Fields(suite: Byte, flags: Byte, keyId: Id, fingerprint: Fingerprint, payload: Bytes): Bytes {
    [0x43, 0x42, 0x58, 0x00, 2, suite, flags] + keyId + fingerprint + payload
  }

  /** The version is judged as soon as there is one, before the length. */
  lemma StartIsReported(version: Byte, rest: Bytes)
    ensures InspectCiphertext([0x43, 0x42, 0x58, 0x00]) == Err(InvalidEnvelope)
    ensures version != 2 ==> InspectCiphertext(Versioned(version, rest)) == Err(UnsupportedFormatVersion(version))
    ensures |rest| < 26 ==> InspectCiphertext(Versioned(2, rest)) == Err(InvalidEnvelope)
  {
    assert Versioned(version, rest)[..4] == MAGIC && Versioned(2, rest)[..4] == MAGIC;
    assert Versioned(2, rest)[4] == FORMAT_VERSION;
  }

  /** Behind a whole header, an unknown suite hides reserved flags, and both hide a payload
      out of range. */
  lemma HeaderIsReported(suite: Byte, flags: Byte, keyId: Id, fingerprint: Fingerprint, payload: Bytes)
    ensures InspectCiphertext(Fields(suite, flags, keyId, fingerprint, payload))
         == if suite != 1 then Err(UnsupportedSuite(suite))
            else if flags != 0 && flags != 1 then Err(UnsupportedFlags(flags))
            else if |payload| < 40 then Err(InvalidEnvelope)
            else if |payload| - 40 >= 274_877_906_880 then Err(MessageTooLong)
            else Ok(CiphertextInfo(1, flags == 1, keyId, fingerprint))
  {
    var bytes := Fields(suite, flags, keyId, fingerprint, payload);
    assert bytes[..4] == MAGIC;
    assert bytes[7..23] == keyId && bytes[23..31] == fingerprint && bytes[31..] == payload;
    FlagBits(flags);
  }

  /** These forms are all there are. */
  lemma FormsAreExhaustive(bytes: Bytes)
    requires IsCiphertext(bytes)
    ensures || bytes == [0x43, 0x42, 0x58, 0x00]
            || (exists version, rest :: bytes == Versioned(version, rest) && (version == 2 ==> |rest| < 26))
            || (exists suite, flags, keyId: Id, fingerprint: Fingerprint, payload ::
                  bytes == Fields(suite, flags, keyId, fingerprint, payload))
  {
    assert bytes[..4] == MAGIC;
    if |bytes| == 4 {
      assert bytes == bytes[..4];
    } else if bytes[4] == 2 && |bytes| >= 31 {
      var keyId: Id, fingerprint: Fingerprint := bytes[7..23], bytes[23..31];
      assert bytes == Fields(bytes[5], bytes[6], keyId, fingerprint, bytes[31..]);
    } else {
      assert bytes == Versioned(bytes[4], bytes[5..]);
    }
  }

  /** Only a missing magic is reported as `NotCiphertext`: bytes that carry it and
      fail are malformed or unsupported, never legacy data. */
  lemma NotCiphertextExactly(bytes: Bytes)
    ensures InspectCiphertext(bytes) == Err(NotCiphertext) <==> !IsCiphertext(bytes)
  {
  }
}
