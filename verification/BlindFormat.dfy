/** The stored blind index (src/blind/format.rs): a version, the index key ID, the
    retained bit count, then that many most-significant digest bits, zero-filled. */
module BlindFormat {
  import opened Bytes
  import opened Wrappers

  const INDEX_FORMAT_VERSION: Byte := 2
  const MAX_INDEX_BITS: nat := 256
  const INDEX_HEADER_LEN: nat := 19
  const DIGEST_LEN: nat := 32

  datatype BlindIndexInfo = BlindIndexInfo(keyId: Id, bits: nat)

  predicate ValidBits(bits: nat) {
    0 < bits <= MAX_INDEX_BITS
  }

  /** Whole digest bytes `bits` bits occupy. */
  function DigestLen(bits: nat): nat {
    (bits + 7) / 8
  }

  /** The mask with the first `kept` bits of a byte set, or all of them for 0. */
  function TopMask(kept: nat): Byte
    requires kept < 8
  {
    match kept
    case 0 => 0xFF case 1 => 0x80 case 2 => 0xC0 case 3 => 0xE0
    case 4 => 0xF0 case 5 => 0xF8 case 6 => 0xFC case 7 => 0xFE
  }

  /** Which bits of the last stored byte carry digest bits, at a precision of `bits`. */
  function FinalByteMask(bits: nat): Byte {
    TopMask(bits % 8)
  }

  /** The mask is the shift the library computes it with. */
  lemma FinalByteMaskIsShift(bits: nat)
    ensures FinalByteMask(bits) == if bits % 8 == 0 then 0xFF else (0xFF as Byte) << (8 - bits % 8)
  {
  }

  function IndexHeader(keyId: Id, bits: nat): (header: Bytes)
    ensures |header| == INDEX_HEADER_LEN
  {
    [INDEX_FORMAT_VERSION] + keyId + BigEndian(bits, 2)
  }

  /** The `bits` most significant bits of a digest, filled up with zeros to whole bytes. */
  function Truncate(digest: Bytes, bits: nat): (truncated: Bytes)
    requires |digest| == DIGEST_LEN && ValidBits(bits)
    ensures |truncated| == DigestLen(bits)
  {
    var last := DigestLen(bits) - 1;
    digest[..last] + [digest[last] & FinalByteMask(bits)]
  }

  function InspectBlindIndex(bytes: Bytes): Result<BlindIndexInfo> {
    if |bytes| < INDEX_HEADER_LEN then Err(InvalidBlindIndex)
    else if bytes[0] != INDEX_FORMAT_VERSION then Err(UnsupportedBlindIndexVersion(bytes[0]))
    else
      var bits := FromBigEndian(bytes[17..19]);
      if !ValidBits(bits) then Err(InvalidBlindIndex)
      else if |bytes| != INDEX_HEADER_LEN + DigestLen(bits) then Err(InvalidBlindIndex)
      else if bytes[|bytes| - 1] & !FinalByteMask(bits) != 0 then Err(InvalidBlindIndex)
      else Ok(BlindIndexInfo(bytes[1..17], bits))
  }

  // ----- The accepted representations are the encoded ones -----

  /** Masking is idempotent: a byte is canonical exactly when masking keeps it. */
  lemma MaskedIsCanonical(b: Byte, mask: Byte)
    ensures (b & mask) & !mask == 0
    ensures b & !mask == 0 <==> b & mask == b
  {
  }

  lemma {:induction false} BitsRoundTrip(bits: nat)
    requires bits <= MAX_INDEX_BITS
    ensures FromBigEndian(BigEndian(bits, 2)) == bits
  {
    Pow256Values();
    BigEndianRoundTrip(bits, 2);
  }

  /** A derived index parses back to the key ID and precision it was encoded with. */
  lemma InspectEncoded(keyId: Id, bits: nat, digest: Bytes)
    requires |digest| == DIGEST_LEN && ValidBits(bits)
    ensures InspectBlindIndex(IndexHeader(keyId, bits) + Truncate(digest, bits)) == Ok(BlindIndexInfo(keyId, bits))
  {
    var bytes := IndexHeader(keyId, bits) + Truncate(digest, bits);
    BitsRoundTrip(bits);
    assert bytes[1..17] == keyId;
    assert bytes[17..19] == BigEndian(bits, 2);
    MaskedIsCanonical(digest[DigestLen(bits) - 1], FinalByteMask(bits));
  }

  /** The digest an accepted representation keeps, extended with zeros. */
  function KeptDigest(bytes: Bytes): Bytes
    requires InspectBlindIndex(bytes).Ok?
  {
    bytes[INDEX_HEADER_LEN..] + Zeros(DIGEST_LEN - (|bytes| - INDEX_HEADER_LEN))
  }

  /** Every accepted representation is the encoding of what it parses to. */
  lemma EncodeInspected(bytes: Bytes)
    requires InspectBlindIndex(bytes).Ok?
    ensures var info := InspectBlindIndex(bytes).value;
            && ValidBits(info.bits)
            && bytes == IndexHeader(info.keyId, info.bits) + Truncate(KeptDigest(bytes), info.bits)
  {
    var info := InspectBlindIndex(bytes).value;
    EncodeParts(bytes, info.keyId, bytes[17..19], info.bits, bytes[INDEX_HEADER_LEN..],
                Zeros(DIGEST_LEN - (|bytes| - INDEX_HEADER_LEN)), bytes[|bytes| - 1]);
  }

  lemma {:induction false} EncodeParts(
    bytes: Bytes, keyId: Id, encoded: Bytes, bits: nat, kept: Bytes, rest: Bytes, last: Byte)
    requires |bytes| >= INDEX_HEADER_LEN && bytes[0] == INDEX_FORMAT_VERSION
    requires keyId == bytes[1..17] && encoded == bytes[17..19] && bits == FromBigEndian(encoded)
    requires ValidBits(bits) && kept == bytes[INDEX_HEADER_LEN..] && |kept| == DigestLen(bits)
    requires last == bytes[|bytes| - 1] && last & !FinalByteMask(bits) == 0
    requires |kept + rest| == DIGEST_LEN
    ensures bytes == IndexHeader(keyId, bits) + Truncate(kept + rest, bits)
  {
    InspectedHeader(bytes, keyId, encoded, bits);
    assert last == kept[|kept| - 1];
    InspectedDigest(kept, kept + rest, bits);
    assert bytes == bytes[..INDEX_HEADER_LEN] + kept;
  }

  lemma {:induction false} InspectedHeader(bytes: Bytes, keyId: Id, encoded: Bytes, bits: nat)
    requires |bytes| >= INDEX_HEADER_LEN && bytes[0] == INDEX_FORMAT_VERSION
    requires keyId == bytes[1..17] && encoded == bytes[17..19] && bits == FromBigEndian(encoded)
    ensures bytes[..INDEX_HEADER_LEN] == IndexHeader(keyId, bits)
  {
    FromBigEndianRoundTrip(encoded);
    assert bytes[..INDEX_HEADER_LEN] == [bytes[0]] + keyId + encoded;
  }

  lemma InspectedDigest(kept: Bytes, digest: Bytes, bits: nat)
    requires ValidBits(bits) && |kept| == DigestLen(bits) && |digest| == DIGEST_LEN
    requires digest[..|kept|] == kept
    requires kept[|kept| - 1] & !FinalByteMask(bits) == 0
    ensures Truncate(digest, bits) == kept
  {
    var last := |kept| - 1;
    MaskedIsCanonical(kept[last], FinalByteMask(bits));
    assert digest[last] == digest[..|kept|][last];
    assert digest[..last] == digest[..|kept|][..last];
  }

  /** The byte strings the parser accepts are exactly the image of the encoder over
      valid headers and digests, and parsing recovers the header. */
  lemma AcceptedIndexes(bytes: Bytes, keyId: Id, bits: nat)
    ensures InspectBlindIndex(bytes) == Ok(BlindIndexInfo(keyId, bits))
       <==> ValidBits(bits)
            && exists digest: Bytes ::
                 |digest| == DIGEST_LEN && bytes == IndexHeader(keyId, bits) + Truncate(digest, bits)
  {
    if InspectBlindIndex(bytes) == Ok(BlindIndexInfo(keyId, bits)) {
      EncodeInspected(bytes);
    }
    if ValidBits(bits) {
      forall digest: Bytes
        | |digest| == DIGEST_LEN && bytes == IndexHeader(keyId, bits) + Truncate(digest, bits)
        ensures InspectBlindIndex(bytes) == Ok(BlindIndexInfo(keyId, bits))
      {
        InspectEncoded(keyId, bits, digest);
      }
    }
  }

  // ----- What each string is reported as, byte by byte -----

  /** A string of another version is reported by that alone; any that is not the length its
      header says, or has a bit set past its precision, is no index. */
  lemma {:induction false} IndexIsReported(version: Byte, keyId: Id, encoded: Bytes, bits: nat, digest: Bytes)
    requires |encoded| == 2 && FromBigEndian(encoded) == bits
    ensures InspectBlindIndex([version] + keyId + encoded + digest)
         == if version != 2 then Err(UnsupportedBlindIndexVersion(version))
            else if !(1 <= bits <= 256) || |digest| != (bits + 7) / 8 then Err(InvalidBlindIndex)
            else if digest[|digest| - 1] & !FinalByteMask(bits) != 0 then Err(InvalidBlindIndex)
            else Ok(BlindIndexInfo(keyId, bits))
  {
    var bytes: Bytes := [version] + keyId + encoded + digest;
    assert bytes[1..17] == keyId && bytes[17..19] == encoded;
    if digest != [] {
      assert bytes[|bytes| - 1] == digest[|digest| - 1];
    }
  }

  /** The two bytes of a precision. */
  lemma TwoBytes(high: Byte, low: Byte)
    ensures FromBigEndian([high, low]) == 256 * (high as int) + low as int
  {
    assert [high, low][..1] == [high] && [high][..0] == [];
    assert FromBigEndian([high]) == high as int;
  }

  lemma ShortIndexIsReported(bytes: Bytes)
    requires |bytes| < 19
    ensures InspectBlindIndex(bytes) == Err(InvalidBlindIndex)
  {
  }

  // ----- Truncation keeps exactly the leading bits -----

  /** The mask of bit `i` of a byte, most significant first. */
  function BitMask(i: nat): Byte
    requires i < 8
  {
    match i
    case 0 => 0x80 case 1 => 0x40 case 2 => 0x20 case 3 => 0x10
    case 4 => 0x08 case 5 => 0x04 case 6 => 0x02 case 7 => 0x01
  }

  predicate BitOf(b: Byte, i: nat)
    requires i < 8
  {
    b & BitMask(i) != 0
  }

  /** Bit `i` of a digest, most significant first. */
  predicate Bit(digest: Bytes, i: nat)
    requires i < 8 * |digest|
  {
    BitOf(digest[i / 8], i % 8)
  }

  /** The first `kept` bits of two bytes agree. */
  predicate AgreeOn(x: Byte, y: Byte, kept: nat) {
    && (kept > 0 ==> (x & 0x80 != 0 <==> y & 0x80 != 0))
    && (kept > 1 ==> (x & 0x40 != 0 <==> y & 0x40 != 0))
    && (kept > 2 ==> (x & 0x20 != 0 <==> y & 0x20 != 0))
    && (kept > 3 ==> (x & 0x10 != 0 <==> y & 0x10 != 0))
    && (kept > 4 ==> (x & 0x08 != 0 <==> y & 0x08 != 0))
    && (kept > 5 ==> (x & 0x04 != 0 <==> y & 0x04 != 0))
    && (kept > 6 ==> (x & 0x02 != 0 <==> y & 0x02 != 0))
    && (kept > 7 ==> (x & 0x01 != 0 <==> y & 0x01 != 0))
  }

  lemma AgreeOnBits(a: Byte, b: Byte, kept: nat)
    requires kept <= 8
    ensures AgreeOn(a, b, kept) <==> forall i :: 0 <= i < kept ==> BitOf(a, i) == BitOf(b, i)
  {
    if forall i :: 0 <= i < kept ==> BitOf(a, i) == BitOf(b, i) {
      assert kept > 0 ==> BitOf(a, 0) == BitOf(b, 0);
      assert kept > 1 ==> BitOf(a, 1) == BitOf(b, 1);
      assert kept > 2 ==> BitOf(a, 2) == BitOf(b, 2);
      assert kept > 3 ==> BitOf(a, 3) == BitOf(b, 3);
      assert kept > 4 ==> BitOf(a, 4) == BitOf(b, 4);
      assert kept > 5 ==> BitOf(a, 5) == BitOf(b, 5);
      assert kept > 6 ==> BitOf(a, 6) == BitOf(b, 6);
      assert kept > 7 ==> BitOf(a, 7) == BitOf(b, 7);
    }
  }

  lemma MaskedAgreement(x: Byte, y: Byte, kept: nat)
    requires kept < 8
    ensures x & TopMask(kept) == y & TopMask(kept) <==> AgreeOn(x, y, if kept == 0 then 8 else kept)
  {
  }

  /** How many bits of its final byte a `bits`-bit index keeps. */
  function KeptBits(bits: nat): (kept: nat)
    ensures 0 < kept <= 8
  {
    if bits % 8 == 0 then 8 else bits % 8
  }

  /** A masked final byte determines, and is determined by, the bits it keeps. */
  lemma MaskKeepsTopBits(a: Byte, b: Byte, bits: nat)
    ensures a & FinalByteMask(bits) == b & FinalByteMask(bits)
       <==> forall i :: 0 <= i < KeptBits(bits) ==> BitOf(a, i) == BitOf(b, i)
  {
    MaskedAgreement(a, b, bits % 8);
    AgreeOnBits(a, b, KeptBits(bits));
  }

  lemma BytesAreTheirBits(a: Byte, b: Byte)
    ensures a == b <==> forall i :: 0 <= i < 8 ==> BitOf(a, i) == BitOf(b, i)
  {
    MaskedAgreement(a, b, 0);
    AgreeOnBits(a, b, 8);
  }

  /** For every precision, two digests are stored alike exactly when their first
      `bits` bits agree: no kept bit is lost, and no further bit is stored. */
  lemma TruncationKeepsLeadingBits(a: Bytes, b: Bytes, bits: nat)
    requires |a| == |b| == DIGEST_LEN && ValidBits(bits)
    ensures Truncate(a, bits) == Truncate(b, bits) <==> forall i :: 0 <= i < bits ==> Bit(a, i) == Bit(b, i)
  {
    if Truncate(a, bits) == Truncate(b, bits) {
      forall i | 0 <= i < bits
        ensures Bit(a, i) == Bit(b, i)
      {
        SameTruncationSameBit(a, b, bits, i);
      }
    }
    if forall i :: 0 <= i < bits ==> Bit(a, i) == Bit(b, i) {
      forall k | 0 <= k < DigestLen(bits)
        ensures Truncate(a, bits)[k] == Truncate(b, bits)[k]
      {
        SameBitsSameStoredByte(a, b, bits, k);
      }
    }
  }

  lemma SameTruncationSameBit(a: Bytes, b: Bytes, bits: nat, i: nat)
    requires |a| == |b| == DIGEST_LEN && ValidBits(bits) && i < bits
    requires Truncate(a, bits) == Truncate(b, bits)
    ensures Bit(a, i) == Bit(b, i)
  {
    var k, last := i / 8, DigestLen(bits) - 1;
    assert Truncate(a, bits)[k] == Truncate(b, bits)[k];
    if k == last {
      assert i % 8 < KeptBits(bits);
      SameLastByteSameBit(a[k], b[k], bits, i % 8);
    }
  }

  lemma SameLastByteSameBit(x: Byte, y: Byte, bits: nat, i: nat)
    requires i < KeptBits(bits)
    requires x & FinalByteMask(bits) == y & FinalByteMask(bits)
    ensures BitOf(x, i) == BitOf(y, i)
  {
    MaskKeepsTopBits(x, y, bits);
  }

  lemma SameBitsSameStoredByte(a: Bytes, b: Bytes, bits: nat, k: nat)
    requires |a| == |b| == DIGEST_LEN && ValidBits(bits) && k < DigestLen(bits)
    requires forall i :: 0 <= i < bits ==> Bit(a, i) == Bit(b, i)
    ensures Truncate(a, bits)[k] == Truncate(b, bits)[k]
  {
    var last := DigestLen(bits) - 1;
    var whole := if k == last then KeptBits(bits) else 8;
    forall i | 0 <= i < whole
      ensures BitOf(a[k], i) == BitOf(b[k], i)
    {
      assert (8 * k + i) / 8 == k && (8 * k + i) % 8 == i;
      assert Bit(a, 8 * k + i) == Bit(b, 8 * k + i);
    }
    if k == last {
      MaskKeepsTopBits(a[k], b[k], bits);
    } else {
      BytesAreTheirBits(a[k], b[k]);
    }
  }

  // ----- The buffer operations -----

  method BuildIndexHeader(keyId: Id, bits: nat) returns (header: array<Byte>)
    ensures fresh(header) && header[..] == IndexHeader(keyId, bits)
  {
    header := new Byte[INDEX_HEADER_LEN](_ => 0);
    header[0] := INDEX_FORMAT_VERSION;
    forall i | 0 <= i < 16 {
      header[1 + i] := keyId[i];
    }
    var low := BigEndian(bits, 2);
    header[17], header[18] := low[0], low[1];
  }

  /** Copies the header and as many digest bytes as the precision touches, then masks the
      last of them in place. */
  method EncodeIndex(header: Bytes, digest: Bytes, bits: nat) returns (stored: array<Byte>)
    requires |header| == INDEX_HEADER_LEN && |digest| == DIGEST_LEN && ValidBits(bits)
    ensures fresh(stored) && stored[..] == header + Truncate(digest, bits)
  {
    var bytes := header + digest[..DigestLen(bits)];
    stored := new Byte[|bytes|](i requires 0 <= i < |bytes| => bytes[i]);
    assert stored[..] == bytes;
    var last := stored.Length - 1;
    stored[last] := stored[last] & FinalByteMask(bits);
  }
}
