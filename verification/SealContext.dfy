/** Seal contexts (src/seal_context.rs): a seal ID, with a record ID for fields of
    records. Encoded, it is part of what derives the operational key and of what the
    tag authenticates; its fingerprint is in the envelope header. */
module SealContexts {
  import opened Bytes
  import opened Wrappers

  type Int64 = n: int | -0x8000_0000_0000_0000 <= n < 0x8000_0000_0000_0000

  /** The stored 8-byte fingerprint of a kind of context. */
  type Fingerprint = s: Bytes | |s| == 8 witness Zeros(8)

  datatype RecordKind = UuidKind | I64Kind {
    /** A persistent context byte. */
    function Code(): Byte {
      match this
      case UuidKind => 1
      case I64Kind => 2
    }
  }

  datatype RecordValue = Uuid(id: Id) | I64(number: Int64) {
    function Kind(): RecordKind {
      match this
      case Uuid(_) => UuidKind
      case I64(_) => I64Kind
    }

    /** The value's canonical bytes: the UUID, or big-endian two's complement. */
    function Payload(): Bytes {
      match this
      case Uuid(id) => id
      case I64(number) =>
        BigEndian(if number < 0 then number + 0x1_0000_0000_0000_0000 else number, 8)
    }
  }

  function KindOf(record: Option<RecordValue>): Option<RecordKind> {
    match record
    case None => None
    case Some(record) => Some(record.Kind())
  }

  /** The fingerprint of each kind of context, as the format fixes them. */
  function FingerprintOf(kind: Option<RecordKind>): Fingerprint {
    match kind
    case None => [0x50, 0x2d, 0xe8, 0xfc, 0xfb, 0x83, 0x8c, 0x80]
    case Some(UuidKind) => [0xf1, 0x30, 0xf3, 0x32, 0xc1, 0xaa, 0x00, 0xec]
    case Some(I64Kind) => [0xaf, 0x72, 0xb9, 0xc5, 0x21, 0x9c, 0xf8, 0x3b]
  }

  /** Opaque context bytes and their fingerprint, as the envelope sees them. */
  datatype Context = Context(bytes: Bytes, fingerprint: Fingerprint)

  /** `seal_id || count[2] || (kind[1] || len[4] || value)?` */
  function Encode(sealId: Id, record: Option<RecordValue>): Bytes {
    match record
    case None => sealId + BigEndian(0, 2)
    case Some(value) =>
      sealId + BigEndian(1, 2) + [value.Kind().Code()] + BigEndian(|value.Payload()|, 4) + value.Payload()
  }

  function NewContext(sealId: Id, record: Option<RecordValue>): Context {
    Context(Encode(sealId, record), FingerprintOf(KindOf(record)))
  }

  /** The context's parts and the bytes after it. */
  datatype Parsed = Parsed(sealId: Id, record: Option<RecordValue>, rest: Bytes)

  /** Reads one context off the front of `bytes`. The library never parses a
      context; this is the reader the encoding is checked against. */
  function Parse(bytes: Bytes): Option<Parsed> {
    if |bytes| < 18 then None else
    var sealId: Id := bytes[..16];
    var count := FromBigEndian(bytes[16..18]);
    if count == 0 then Some(Parsed(sealId, None, bytes[18..]))
    else if count != 1 || |bytes| < 23 then None else
    var len := FromBigEndian(bytes[19..23]);
    if bytes[18] == 1 && len == 16 && |bytes| >= 39 then
      Some(Parsed(sealId, Some(Uuid(bytes[23..39])), bytes[39..]))
    else if bytes[18] == 2 && len == 8 && |bytes| >= 31 then
      Some(Parsed(sealId, Some(I64(Signed(bytes[23..31]))), bytes[31..]))
    else None
  }

  /** Eight bytes as a two's-complement integer. */
  function Signed(bytes: Bytes): Int64
    requires |bytes| == 8
  {
    FromBigEndianRoundTrip(bytes);
    Pow256Values();
    var n := FromBigEndian(bytes);
    if n < 0x8000_0000_0000_0000 then n else n - 0x1_0000_0000_0000_0000
  }

  lemma PayloadRoundTrip(number: Int64)
    ensures |I64(number).Payload()| == 8
    ensures Signed(I64(number).Payload()) == number
  {
    Pow256Values();
    BigEndianRoundTrip(if number < 0 then number + 0x1_0000_0000_0000_0000 else number, 8);
  }

  lemma PayloadOfSigned(bytes: Bytes)
    requires |bytes| == 8
    ensures I64(Signed(bytes)).Payload() == bytes
  {
    FromBigEndianRoundTrip(bytes);
    Pow256Values();
  }

  /** The integers of a context's header survive their encoding. */
  lemma {:induction false} HeaderIntegers(n: nat)
    requires n < 256
    ensures FromBigEndian(BigEndian(n, 2)) == n && FromBigEndian(BigEndian(n, 4)) == n
  {
    Pow256Values();
    BigEndianRoundTrip(n, 2);
    BigEndianRoundTrip(n, 4);
  }

  /** The slices `Parse` takes of a record context are its parts. */
  lemma RecordSlices(id: Bytes, count: Bytes, kind: Byte, len: Bytes, payload: Bytes, rest: Bytes, bytes: Bytes)
    requires |id| == 16 && |count| == 2 && |len| == 4
    requires bytes == id + count + [kind] + len + payload + rest
    ensures |bytes| == 23 + |payload| + |rest|
    ensures bytes[..16] == id && bytes[16..18] == count && bytes[18] == kind && bytes[19..23] == len
    ensures bytes[23..23 + |payload|] == payload && bytes[23 + |payload|..] == rest
  {
  }

  /** Reading what was written gives the parts back and stops where the context
      ends: the encoding is injective, and no context is a prefix of another. */
  lemma ParseEncode(sealId: Id, record: Option<RecordValue>, rest: Bytes)
    ensures Parse(Encode(sealId, record) + rest) == Some(Parsed(sealId, record, rest))
  {
    var bytes := Encode(sealId, record) + rest;
    match record
    case None =>
      HeaderIntegers(0);
      assert bytes[..16] == sealId && bytes[16..18] == BigEndian(0, 2) && bytes[18..] == rest;
    case Some(value) =>
      ParseEncodeRecord(sealId, value, rest);
  }

  /** A record context reads as its parts once its integers do. */
  lemma ParseRecord(bytes: Bytes, id: Id, value: RecordValue, rest: Bytes)
    requires |bytes| == 23 + |value.Payload()| + |rest|
    requires bytes[..16] == id && bytes[18] == value.Kind().Code()
    requires FromBigEndian(bytes[16..18]) == 1 && FromBigEndian(bytes[19..23]) == |value.Payload()|
    requires bytes[23..23 + |value.Payload()|] == value.Payload() && bytes[23 + |value.Payload()|..] == rest
    ensures Parse(bytes) == Some(Parsed(id, Some(value), rest))
  {
    if value.I64? {
      PayloadRoundTrip(value.number);
    }
  }

  lemma ParseEncodeRecord(sealId: Id, value: RecordValue, rest: Bytes)
    ensures Parse(Encode(sealId, Some(value)) + rest) == Some(Parsed(sealId, Some(value), rest))
  {
    var bytes := Encode(sealId, Some(value)) + rest;
    EncodedParts(sealId, value, rest);
    ParseRecord(bytes, sealId, value, rest);
  }

  lemma EncodedParts(sealId: Id, value: RecordValue, rest: Bytes)
    ensures var payload, bytes := value.Payload(), Encode(sealId, Some(value)) + rest;
            && |bytes| == 23 + |payload| + |rest|
            && bytes[..16] == sealId && bytes[18] == value.Kind().Code()
            && FromBigEndian(bytes[16..18]) == 1 && FromBigEndian(bytes[19..23]) == |payload|
            && bytes[23..23 + |payload|] == payload && bytes[23 + |payload|..] == rest
  {
    var payload := value.Payload();
    PayloadLength(value);
    HeaderIntegers(1);
    HeaderIntegers(|payload|);
    RecordSlices(sealId, BigEndian(1, 2), value.Kind().Code(), BigEndian(|payload|, 4), payload, rest,
                 Encode(sealId, Some(value)) + rest);
  }

  lemma PayloadLength(value: RecordValue)
    ensures |value.Payload()| == if value.Uuid? then 16 else 8
  {
  }

  /** Two bytes that read as `n` are the encoding of `n`; so are four. */
  lemma {:induction false} IntegerBytes(bytes: Bytes, n: nat)
    requires FromBigEndian(bytes) == n
    ensures bytes == BigEndian(n, |bytes|)
  {
    FromBigEndianRoundTrip(bytes);
  }

  /** Every byte string the reader accepts is the encoding of what it read. */
  lemma EncodeParse(bytes: Bytes)
    requires Parse(bytes).Some?
    ensures var parsed := Parse(bytes).value;
            bytes == Encode(parsed.sealId, parsed.record) + parsed.rest
  {
    var parsed := Parse(bytes).value;
    ParsedCount(bytes);
    match parsed.record
    case None =>
      assert bytes == bytes[..16] + bytes[16..18] + bytes[18..];
    case Some(value) =>
      ParsedRecord(bytes, value);
      Reassemble(bytes, 23 + |value.Payload()|);
  }

  lemma ParsedCount(bytes: Bytes)
    requires Parse(bytes).Some?
    ensures bytes[16..18] == BigEndian(if Parse(bytes).value.record.Some? then 1 else 0, 2)
    ensures Parse(bytes).value.sealId == bytes[..16]
    ensures Parse(bytes).value.record.None? ==> Parse(bytes).value.rest == bytes[18..]
  {
    IntegerBytes(bytes[16..18], FromBigEndian(bytes[16..18]));
  }

  lemma Reassemble(bytes: Bytes, end: nat)
    requires 23 <= end <= |bytes|
    ensures bytes == bytes[..16] + bytes[16..18] + [bytes[18]] + bytes[19..23] + bytes[23..end] + bytes[end..]
  {
  }

  lemma ParsedRecord(bytes: Bytes, value: RecordValue)
    requires Parse(bytes).Some? && Parse(bytes).value.record == Some(value)
    ensures var end := 23 + |value.Payload()|;
            && |bytes| >= end
            && bytes[18] == value.Kind().Code()
            && bytes[19..23] == BigEndian(|value.Payload()|, 4)
            && bytes[23..end] == value.Payload()
            && bytes[end..] == Parse(bytes).value.rest
  {
    PayloadLength(value);
    IntegerBytes(bytes[19..23], FromBigEndian(bytes[19..23]));
    if value.I64? {
      PayloadOfSigned(bytes[23..31]);
    }
  }

  /** Contexts followed by anything agree only when both the contexts and what
      follows them agree. */
  lemma EncodePrefixFree(a: Id, r: Option<RecordValue>, rest: Bytes, b: Id, s: Option<RecordValue>, other: Bytes)
    requires Encode(a, r) + rest == Encode(b, s) + other
    ensures a == b && r == s && rest == other
  {
    ParseEncode(a, r, rest);
    ParseEncode(b, s, other);
  }

  /** Fingerprints tell kinds of context apart, and nothing else. */
  lemma FingerprintsDiffer(a: Option<RecordKind>, b: Option<RecordKind>)
    ensures FingerprintOf(a) == FingerprintOf(b) <==> a == b
  {
    assert FingerprintOf(a)[0] == FingerprintOf(b)[0] ==> a == b;
  }

  /** Appends the parts of a context to a growing buffer, as the encoder does. */
  method BuildContext(sealId: Id, record: Option<RecordValue>) returns (context: Context)
    ensures context == NewContext(sealId, record)
  {
    var bytes: Bytes := sealId;
    bytes := bytes + BigEndian(if record.Some? then 1 else 0, 2);
    match record {
      case None =>
      case Some(value) =>
        bytes := bytes + [value.Kind().Code()];
        bytes := bytes + BigEndian(|value.Payload()|, 4);
        bytes := bytes + value.Payload();
    }
    context := Context(bytes, FingerprintOf(KindOf(record)));
  }
}
