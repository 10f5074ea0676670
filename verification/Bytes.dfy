/** Bytes, fixed-size byte strings, and the big-endian integers of the wire format. */
module Bytes {
  type Byte = bv8

  type Bytes = seq<Byte>

  /** A 16-byte UUID: a seal, index, key, or record ID. */
  type Id = s: Bytes | |s| == 16 witness Zeros(16)

  /** The largest `usize`, which is taken to have 64 bits. */
  const USIZE_MAX: nat := 0xFFFF_FFFF_FFFF_FFFF

  function Zeros(n: nat): (zeros: Bytes)
    ensures |zeros| == n
    ensures forall i :: 0 <= i < n ==> zeros[i] == 0
  {
    seq(n, _ => 0)
  }

  /** The ASCII bytes of a persistent label, without its terminating NUL. */
  function Ascii(text: string): (bytes: Bytes)
    ensures |bytes| == |text|
    ensures forall i :: 0 <= i < |text| ==> bytes[i] == (text[i] as int % 256) as Byte
  {
    seq(|text|, i requires 0 <= i < |text| => (text[i] as int % 256) as Byte)
  }

  /** 256 to the power `width`: one more than the largest `width`-byte integer. */
  function Pow256(width: nat): (p: nat)
    ensures p > 0
  {
    if width == 0 then 1 else 256 * Pow256(width - 1)
  }

  /** `n` as `width` big-endian bytes, truncated to its low bytes as a cast is. */
  function BigEndian(n: nat, width: nat): (bytes: Bytes)
    ensures |bytes| == width
    decreases width
  {
    if width == 0 then [] else BigEndian(n / 256, width - 1) + [(n % 256) as Byte]
  }

  function FromBigEndian(bytes: Bytes): nat {
    if bytes == [] then 0
    else 256 * FromBigEndian(bytes[..|bytes| - 1]) + bytes[|bytes| - 1] as int
  }

  /** Reading what was written gives the integer back, if it fits the width. */
  lemma {:induction false} BigEndianRoundTrip(n: nat, width: nat)
    requires n < Pow256(width)
    ensures FromBigEndian(BigEndian(n, width)) == n
    decreases width
  {
    if width > 0 {
      BigEndianRoundTrip(n / 256, width - 1);
      IntegerOfByte(n % 256);
      assert BigEndian(n, width)[..width - 1] == BigEndian(n / 256, width - 1);
    }
  }

  /** Writing what was read gives the bytes back, so every byte string is the
      encoding of exactly one integer of its width. */
  lemma {:induction false} FromBigEndianRoundTrip(bytes: Bytes)
    ensures FromBigEndian(bytes) < Pow256(|bytes|)
    ensures BigEndian(FromBigEndian(bytes), |bytes|) == bytes
  {
    FromBigEndianFits(bytes);
    FromBigEndianWritten(bytes, FromBigEndian(bytes));
  }

  lemma {:induction false} FromBigEndianFits(bytes: Bytes)
    ensures FromBigEndian(bytes) < Pow256(|bytes|)
  {
    if bytes != [] {
      var before, last := bytes[..|bytes| - 1], bytes[|bytes| - 1];
      FromBigEndianFits(before);
      LastByteFits(FromBigEndian(before), last, Pow256(|before|));
    }
  }

  lemma {:induction false} FromBigEndianWritten(bytes: Bytes, n: nat)
    requires n == FromBigEndian(bytes)
    ensures BigEndian(n, |bytes|) == bytes
    decreases |bytes|
  {
    if bytes != [] {
      var before, last := bytes[..|bytes| - 1], bytes[|bytes| - 1];
      FromBigEndianLast(bytes, before, last);
      FromBigEndianWritten(before, FromBigEndian(before));
      BigEndianLast(FromBigEndian(before), last, |bytes|);
    }
  }

  lemma {:induction false} FromBigEndianLast(bytes: Bytes, before: Bytes, last: Byte)
    requires bytes == before + [last]
    ensures FromBigEndian(bytes) == 256 * FromBigEndian(before) + last as int
  {
    assert bytes[..|bytes| - 1] == before;
  }

  lemma LastByteFits(high: nat, last: Byte, power: nat)
    requires high < power
    ensures 256 * high + last as int < 256 * power
  {
    ByteOfInteger(last);
  }

  lemma BigEndianLast(high: nat, last: Byte, width: nat)
    requires width > 0
    ensures BigEndian(256 * high + last as int, width) == BigEndian(high, width - 1) + [last]
  {
    ByteOfInteger(last);
    LowByte(high, last as int);
  }

  lemma LowByte(high: nat, low: nat)
    requires low < 256
    ensures (256 * high + low) / 256 == high && (256 * high + low) % 256 == low
  {
  }

  lemma Pow256Values()
    ensures Pow256(1) == 0x100
    ensures Pow256(2) == 0x1_0000
    ensures Pow256(4) == 0x1_0000_0000
    ensures Pow256(8) == 0x1_0000_0000_0000_0000
  {
    assert Pow256(3) == 0x100_0000;
    assert Pow256(6) == 0x1_0000_0000_0000;
  }

  /** Equal concatenations with equally long heads have equal parts. */
  lemma SplitEqual<T>(a: seq<T>, b: seq<T>, c: seq<T>, d: seq<T>)
    requires |a| == |c|
    requires a + b == c + d
    ensures a == c && b == d
  {
    assert a == (a + b)[..|a|] && c == (c + d)[..|c|];
    assert b == (a + b)[|a|..] && d == (c + d)[|c|..];
  }

  // ----- Bytes as integers -----

  lemma ByteOfInteger(b: Byte)
    ensures 0 <= b as int < 256
    ensures b as int as Byte == b
  {
  }

  lemma ByteSuccessor(b: Byte)
    requires b != 0xFF
    ensures (b + 1) as int == b as int + 1
  {
  }

  lemma {:induction false} SomeByte(n: nat) returns (b: Byte)
    requires n < 256
    ensures b as int == n
  {
    if n == 0 {
      b := 0;
    } else {
      var below := SomeByte(n - 1);
      ByteSuccessor(below);
      b := below + 1;
    }
  }

  /** An integer that fits a byte survives its conversion to one. */
  lemma IntegerOfByte(n: nat)
    requires n < 256
    ensures n as Byte as int == n
  {
    var b := SomeByte(n);
    ByteOfInteger(b);
  }
}
