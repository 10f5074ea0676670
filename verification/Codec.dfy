/** The growing plaintext buffer of the JSON codec (src/codec.rs). It never lets the
    standard vector reallocate, so that each outgrown allocation can be wiped. */
module PlaintextBuffer {
  import opened Bytes

  /** The largest allocation a vector may ask for. */
  const ISIZE_MAX: nat := 0x7FFF_FFFF_FFFF_FFFF

  function Max(a: nat, b: nat): nat {
    if a < b then b else a
  }

  /** The capacity a full buffer grows to; doubling saturates at the word size. */
  function GrownCapacity(capacity: nat, required: nat): nat {
    Max(Max(if 2 * capacity > USIZE_MAX then USIZE_MAX else 2 * capacity, required), 8)
  }

  /** Whether room for `additional` more bytes can be had; otherwise the writer panics
      and stores nothing. */
  predicate HasRoom(len: nat, capacity: nat, additional: nat) {
    && len + additional <= USIZE_MAX
    && (len + additional <= capacity || GrownCapacity(capacity, len + additional) <= ISIZE_MAX)
  }

  class ZeroizingByteBuffer {
    var bytes: array<Byte>
    var len: nat
    // Bytes copied by all reallocations, and the capacity before the last of them.
    ghost var copied: nat
    ghost var outgrown: nat

    ghost predicate Valid()
      reads this
    {
      && len <= bytes.Length <= USIZE_MAX
      && copied <= 2 * outgrown <= bytes.Length
      && outgrown <= len
    }

    ghost function Contents(): Bytes
      reads this, bytes
      requires len <= bytes.Length
    {
      bytes[..len]
    }

    constructor ()
      ensures Valid() && fresh(bytes) && Contents() == []
      ensures copied == 0
    {
      bytes := new Byte[0];
      len, copied, outgrown := 0, 0, 0;
    }

    /** Makes room for `additional` bytes, keeping the contents. The room is exact, so
        the append that follows never reallocates. */
    method Reserve(additional: nat) returns (ok: bool)
      requires Valid()
      modifies this
      ensures len <= bytes.Length && len == old(len) && Contents() == old(Contents())
      ensures ok == HasRoom(old(len), old(bytes).Length, additional)
      ensures !ok ==> Valid() && bytes == old(bytes) && copied == old(copied)
      ensures ok ==>
                && len + additional <= bytes.Length <= USIZE_MAX
                && copied <= 2 * outgrown <= bytes.Length && outgrown <= len + additional
      ensures bytes == old(bytes) || fresh(bytes)
    {
      var required := len + additional;
      if required > USIZE_MAX {
        return false;
      }
      if required <= bytes.Length {
        return true;
      }
      var capacity := GrownCapacity(bytes.Length, required);
      if capacity > ISIZE_MAX {
        return false;
      }
      var replacement := new Byte[capacity];
      CopyInto(replacement, 0, bytes[..len]);
      copied, outgrown := copied + len, bytes.Length;
      bytes := replacement;
      return true;
    }

    /** Appends `more`. All reallocations so far have copied at most twice what the
        buffer now holds. */
    method ExtendFromSlice(more: Bytes) returns (ok: bool)
      requires Valid()
      modifies this, bytes
      ensures Valid()
      ensures bytes == old(bytes) || fresh(bytes)
      ensures ok == HasRoom(old(len), old(bytes).Length, |more|)
      ensures Contents() == if ok then old(Contents()) + more else old(Contents())
      ensures copied <= 2 * len
    {
      ok := Reserve(|more|);
      if !ok {
        return;
      }
      CopyInto(bytes, len, more);
      len := len + |more|;
    }
  }

  /** Writes `more` at `at`, leaving what is before it. */
  method CopyInto(to: array<Byte>, at: nat, more: Bytes)
    requires at + |more| <= to.Length
    modifies to
    ensures to[..at + |more|] == old(to[..at]) + more
  {
    var i := 0;
    while i < |more|
      invariant 0 <= i <= |more|
      invariant to[..at + i] == old(to[..at]) + more[..i]
    {
      to[at + i] := more[i];
      i := i + 1;
      assert to[..at + i] == to[..at + i - 1] + [more[i - 1]];
    }
    assert more[..i] == more;
  }

  function Concat(chunks: seq<Bytes>): Bytes {
    if chunks == [] then [] else Concat(chunks[..|chunks| - 1]) + chunks[|chunks| - 1]
  }

  /** Serializes a value that the serializer writes in `chunks`; returns its bytes and
      how many were copied on the way, or none when memory runs out. */
  method Serialize(chunks: seq<Bytes>) returns (ok: bool, bytes: Bytes, ghost copied: nat)
    ensures ok ==> bytes == Concat(chunks) && copied <= 2 * |bytes|
    ensures |Concat(chunks)| <= ISIZE_MAX / 2 ==> ok
  {
    var buffer := new ZeroizingByteBuffer();
    var i := 0;
    while i < |chunks|
      invariant 0 <= i <= |chunks|
      invariant fresh(buffer) && fresh(buffer.bytes) && buffer.Valid()
      invariant buffer.Contents() == Concat(chunks[..i])
      invariant buffer.copied <= 2 * buffer.len
    {
      assert chunks[..i + 1][..i] == chunks[..i];
      ConcatGrows(chunks, i + 1);
      ok := buffer.ExtendFromSlice(chunks[i]);
      if !ok {
        return false, [], 0;
      }
      i := i + 1;
    }
    assert chunks[..i] == chunks;
    return true, buffer.bytes[..buffer.len], buffer.copied;
  }

  lemma {:induction false} ConcatGrows(chunks: seq<Bytes>, n: nat)
    requires n <= |chunks|
    ensures |Concat(chunks[..n])| <= |Concat(chunks)|
    decreases |chunks| - n
  {
    if n == |chunks| {
      assert chunks[..n] == chunks;
    } else {
      ConcatGrows(chunks, n + 1);
      assert chunks[..n + 1][..n] == chunks[..n];
    }
  }
}
