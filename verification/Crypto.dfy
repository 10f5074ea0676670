/** The primitives (src/crypto.rs and the AEAD of suite 1), as parameters: HKDF with
    the crate's salt, the detached AEAD, and HMAC. Only their stated laws are used. */
module Crypto {
  import opened Bytes
  import opened EnvelopeFormat
  import opened Wrappers

  /** A 24-byte AEAD nonce. */
  type Nonce = s: Bytes | |s| == 24 witness Zeros(24)

  datatype AeadOutput = AeadOutput(ciphertext: Bytes, tag: Bytes)

  /** `hkdf(root, info)`, `encrypt(key, nonce, aad, message)`,
      `decrypt(key, nonce, aad, ciphertext, tag)`, and `mac(key, input)`. */
  datatype Primitives = Primitives(
    hkdf: (Bytes, Bytes) -> Bytes,
    encrypt: (Bytes, Bytes, Bytes, Bytes) -> AeadOutput,
    decrypt: (Bytes, Bytes, Bytes, AeadOutput) -> Option<Bytes>,
    mac: (Bytes, Bytes) -> Bytes
  ) {
    /** The AEAD keeps lengths, appends a 16-byte tag, and opens what it sealed;
        HMAC-SHA-256 yields 32 bytes. */
    ghost predicate Lawful() {
      && (forall key, nonce, aad, message :: Seals(key, nonce, aad, message))
      && (forall key, input :: |mac(key, input)| == 32)
    }

    ghost predicate Seals(key: Bytes, nonce: Bytes, aad: Bytes, message: Bytes) {
      var output := encrypt(key, nonce, aad, message);
      && |output.ciphertext| == |message|
      && |output.tag| == TAG_LEN
      && decrypt(key, nonce, aad, output) == Some(message)
    }
  }

  /** The laws have a model: a cipher that hides nothing, whose tag is constant. */
  function Transparent(): Primitives {
    Primitives(
      (root, info) => root + info,
      (key, nonce, aad, message) => AeadOutput(message, Zeros(TAG_LEN)),
      (key, nonce, aad, output: AeadOutput) => Some(output.ciphertext),
      (key, input) => Zeros(32))
  }

  lemma LawsHaveAModel()
    ensures Transparent().Lawful()
  {
    forall key, nonce, aad, message
      ensures Transparent().Seals(key, nonce, aad, message)
    {
    }
  }

  /** The last bytes of the authenticated data, as a tag: all of it that 16 bytes can hold. */
  function TagOf(aad: Bytes): (tag: Bytes)
    ensures |tag| == TAG_LEN
  {
    if |aad| < TAG_LEN then Zeros(TAG_LEN) else aad[|aad| - TAG_LEN..]
  }

  /** The laws have a model that authenticates: its cipher hides nothing, but opens only
      under authenticated data that end alike. */
  function Checking(): Primitives {
    Primitives(
      (root, info) => root + info,
      (key, nonce, aad, message) => AeadOutput(message, TagOf(aad)),
      (key, nonce, aad, output: AeadOutput) => if output.tag == TagOf(aad) then Some(output.ciphertext) else None,
      (key, input) => Zeros(32))
  }

  lemma CheckingIsLawful()
    ensures Checking().Lawful()
  {
    forall key, nonce, aad, message
      ensures Checking().Seals(key, nonce, aad, message)
    {
    }
  }
}
