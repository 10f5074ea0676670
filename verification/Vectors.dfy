/** The published vectors (docs/wire-format.md, tests/vectors.rs), as far as they do not
    depend on the primitives: contexts, headers, padding, and stored indexes. */
module Vectors {
  import opened BlindFormat
  import opened Bytes
  import opened EnvelopeFormat
  import opened PaddingPolicy
  import opened SealContexts
  import opened Wrappers

  const SEAL_ID: Id := [0x12, 0x34, 0x56, 0x78, 0x12, 0x34, 0x42, 0x34, 0x82, 0x34, 0x12, 0x34, 0x56, 0x78, 0x90, 0xab]
  const RECORD: Id := [0x01, 0x92, 0xd5, 0xf8, 0x7c, 0x3a, 0x7b, 0x4e, 0x9f, 0x10, 0x12, 0x34, 0x56, 0x78, 0x9a, 0xbc]
  const KEY_ID: Id := [0x11, 0x11, 0x11, 0x11, 0x22, 0x22, 0x43, 0x33, 0x84, 0x44, 0x55, 0x55, 0x55, 0x55, 0x55, 0x55]
  const INDEX_KEY: Id :=
    [0xaa, 0xaa, 0xaa, 0xaa, 0xbb, 0xbb, 0x4c, 0xcc, 0x8d, 0xdd, 0xee, 0xee, 0xee, 0xee, 0xee, 0xee]

  // ----- Integers -----

  lemma {:induction false} SmallBigEndian(n: nat, width: nat)
    requires n < 256 && width > 0
    ensures BigEndian(n, width) == Zeros(width - 1) + [n as Byte]
    decreases width
  {
    assert n / 256 == 0 && n % 256 == n;
    if width > 1 {
      SmallBigEndian(0, width - 1);
      OneMoreZero(width - 2);
    }
  }

  lemma OneMoreZero(n: nat)
    ensures Zeros(n) + [0] == Zeros(n + 1)
  {
  }

  lemma {:induction false} LargestBigEndian(width: nat)
    ensures BigEndian(Pow256(width) - 1, width) == seq(width, _ => 0xff as Byte)
    decreases width
  {
    if width > 0 {
      LargestBigEndian(width - 1);
      assert (Pow256(width) - 1) / 256 == Pow256(width - 1) - 1 && (Pow256(width) - 1) % 256 == 255;
    }
  }

  // ----- Contexts -----

  /** A value that stands alone. */
  lemma StandaloneVector()
    ensures Encode(SEAL_ID, None) == SEAL_ID + [0, 0]
  {
    SmallBigEndian(0, 2);
  }

  /** The context of the record `number`, if its value's bytes are `payload`. */
  lemma I64Context(number: Int64, payload: Bytes)
    requires I64(number).Payload() == payload && |payload| == 8
    ensures Encode(SEAL_ID, Some(I64(number))) == SEAL_ID + [0, 1, 2, 0, 0, 0, 8] + payload
  {
    SmallBigEndian(1, 2);
    SmallBigEndian(8, 4);
    assert BigEndian(1, 2) + [2] + BigEndian(8, 4) == [0, 1, 2, 0, 0, 0, 8];
  }

  /** The context of the record 7. */
  lemma RecordVector()
    ensures Encode(SEAL_ID, Some(I64(7))) == SEAL_ID + [0, 1, 2, 0, 0, 0, 8] + [0, 0, 0, 0, 0, 0, 0, 7]
  {
    SmallBigEndian(7, 8);
    I64Context(7, [0, 0, 0, 0, 0, 0, 0, 7]);
  }

  /** The context of the record -1, in two's complement. */
  lemma NegativeRecordVector()
    ensures Encode(SEAL_ID, Some(I64(-1)))
         == SEAL_ID + [0, 1, 2, 0, 0, 0, 8] + [0xff, 0xff, 0xff, 0xff, 0xff, 0xff, 0xff, 0xff]
  {
    Pow256Values();
    LargestBigEndian(8);
    I64Context(-1, [0xff, 0xff, 0xff, 0xff, 0xff, 0xff, 0xff, 0xff]);
  }

  /** The context of a UUID record. */
  lemma UuidRecordVector()
    ensures Encode(SEAL_ID, Some(Uuid(RECORD))) == SEAL_ID + [0, 1, 1, 0, 0, 0, 16] + RECORD
  {
    SmallBigEndian(1, 2);
    SmallBigEndian(16, 4);
    assert BigEndian(1, 2) + [1] + BigEndian(16, 4) == [0, 1, 1, 0, 0, 0, 16];
  }

  // ----- Envelopes -----

  /** The headers of the published envelopes. */
  lemma HeaderVectors()
    ensures EnvelopeHeader(1, false, KEY_ID, FingerprintOf(KindOf(None)))
         == [0x43, 0x42, 0x58, 0x00, 0x02, 0x01, 0x00] + KEY_ID + [0x50, 0x2d, 0xe8, 0xfc, 0xfb, 0x83, 0x8c, 0x80]
    ensures EnvelopeHeader(1, true, KEY_ID, FingerprintOf(KindOf(None)))
         == [0x43, 0x42, 0x58, 0x00, 0x02, 0x01, 0x01] + KEY_ID + [0x50, 0x2d, 0xe8, 0xfc, 0xfb, 0x83, 0x8c, 0x80]
    ensures EnvelopeHeader(1, false, KEY_ID, FingerprintOf(KindOf(Some(I64(7)))))
         == [0x43, 0x42, 0x58, 0x00, 0x02, 0x01, 0x00] + KEY_ID + [0xaf, 0x72, 0xb9, 0xc5, 0x21, 0x9c, 0xf8, 0x3b]
    ensures EnvelopeHeader(1, false, KEY_ID, FingerprintOf(KindOf(Some(Uuid(RECORD)))))
         == [0x43, 0x42, 0x58, 0x00, 0x02, 0x01, 0x00] + KEY_ID + [0xf1, 0x30, 0xf3, 0x32, 0xc1, 0xaa, 0x00, 0xec]
  {
  }

  /** Its 15 bytes of plaintext are padded to one block of 16. */
  lemma PaddedVector(plaintext: Bytes)
    requires plaintext == Ascii("cryptbox vector")
    ensures Pad(Block(16), plaintext) == Ok(Some(plaintext + [0x80]))
  {
    BlockTargetIsLeastMultiple(16, 15, 16);
    assert Target(Block(16), |plaintext|) == Ok(Some(16));
    assert Marked(plaintext, 16) == plaintext + [0x80];
  }

  // ----- Stored indexes -----

  /** The stored indexes of 13 and of 64 bits, one of another version, and two that are not
      canonical: a bit set past the precision, and a byte too many. */
  lemma IndexVectors()
    ensures InspectBlindIndex([2] + INDEX_KEY + [0x00, 0x0d] + [0xe8, 0x00]) == Ok(BlindIndexInfo(INDEX_KEY, 13))
    ensures InspectBlindIndex([2] + INDEX_KEY + [0x00, 0x40] + [0xe2, 0x01, 0x60, 0xc5, 0xea, 0x7a, 0x01, 0xa3])
         == Ok(BlindIndexInfo(INDEX_KEY, 64))
    ensures InspectBlindIndex([1] + INDEX_KEY + [0x00, 0x0d] + [0x71, 0xe0]) == Err(UnsupportedBlindIndexVersion(1))
    ensures InspectBlindIndex([2] + INDEX_KEY + [0x00, 0x0d] + [0xe8, 0x01]) == Err(InvalidBlindIndex)
    ensures InspectBlindIndex([2] + INDEX_KEY + [0x00, 0x0d] + [0xe8, 0x00, 0x00]) == Err(InvalidBlindIndex)
  {
    TwoBytes(0x00, 0x0d);
    TwoBytes(0x00, 0x40);
    IndexIsReported(2, INDEX_KEY, [0x00, 0x0d], 13, [0xe8, 0x00]);
    IndexIsReported(2, INDEX_KEY, [0x00, 0x40], 64, [0xe2, 0x01, 0x60, 0xc5, 0xea, 0x7a, 0x01, 0xa3]);
    IndexIsReported(1, INDEX_KEY, [0x00, 0x0d], 13, [0x71, 0xe0]);
    IndexIsReported(2, INDEX_KEY, [0x00, 0x0d], 13, [0xe8, 0x01]);
    IndexIsReported(2, INDEX_KEY, [0x00, 0x0d], 13, [0xe8, 0x00, 0x00]);
  }
}
