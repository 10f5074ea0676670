/** Plaintext padding (src/padding.rs): ISO/IEC 7816-4:2005 clause 6.2.3.1, a
    byte 0x80 and then zeros, with the `usize` arithmetic of the policies. */
module PaddingPolicy {
  import opened Bytes
  import opened Wrappers

  const MARKER: Byte := 0x80

  datatype Padding = NoPadding | Block(size: nat) | Length(len: nat) {
    /** What the constructors assert: parameters are `usize`, blocks at least 2
        bytes, fixed lengths at least 1. */
    predicate Valid() {
      match this
      case NoPadding => true
      case Block(size) => 2 <= size <= USIZE_MAX
      case Length(len) => 1 <= len <= USIZE_MAX
    }

    predicate IsPadded() {
      !NoPadding?
    }
  }

  /** A block of one byte would leave the marker no room to tell lengths apart by, and no
      fixed length of zero hides anything; every other size of a machine word will do. */
  lemma ValidExactly(size: int)
    requires size >= 0
    ensures Block(size).Valid() <==> size != 0 && size != 1 && size < 0x1_0000_0000_0000_0000
    ensures Length(size).Valid() <==> size != 0 && size < 0x1_0000_0000_0000_0000
  {
  }

  function CheckedAdd(a: nat, b: nat): Result<nat> {
    if a + b <= USIZE_MAX then Ok(a + b) else Err(MessageTooLong)
  }

  function CheckedMul(a: nat, b: nat): Result<nat> {
    if a * b <= USIZE_MAX then Ok(a * b) else Err(MessageTooLong)
  }

  function DivCeil(n: nat, d: nat): nat
    requires d > 0
  {
    if n % d == 0 then n / d else n / d + 1
  }

  /** `plaintext` followed by the marker and zeros, `target` bytes in all. */
  function Marked(plaintext: Bytes, target: nat): Bytes
    requires |plaintext| < target
  {
    plaintext + [MARKER] + Zeros(target - |plaintext| - 1)
  }

  /** The padded length `padding` gives `len` bytes, or `None` without padding. */
  function Target(padding: Padding, len: nat): (r: Result<Option<nat>>)
    requires padding.Valid()
  {
    match padding
    case NoPadding => Ok(None)
    case Block(size) =>
      var lengthWithMarker :- CheckedAdd(len, 1);
      var blocks := DivCeil(lengthWithMarker, size);
      var target :- CheckedMul(blocks, size);
      Ok(Some(target))
    case Length(length) =>
      if len > length then Err(PaddingOverflow) else
      var target :- CheckedAdd(length, 1);
      Ok(Some(target))
  }

  function Pad(padding: Padding, plaintext: Bytes): (r: Result<Option<Bytes>>)
    requires padding.Valid()
  {
    var target :- Target(padding, |plaintext|);
    match target
    case None => Ok(None)
    case Some(target) =>
      TargetFits(padding, |plaintext|);
      Ok(Some(Marked(plaintext, target)))
  }

  /** One past the index of the last nonzero byte, or 0 when there is none. */
  function AfterLastNonZero(bytes: Bytes): (n: nat)
    ensures n <= |bytes|
    ensures n > 0 ==> bytes[n - 1] != 0
    ensures forall i :: n <= i < |bytes| ==> bytes[i] == 0
  {
    if bytes == [] then 0
    else if bytes[|bytes| - 1] != 0 then |bytes|
    else AfterLastNonZero(bytes[..|bytes| - 1])
  }

  /** What `UnpadBuffer` returns. */
  function Unpad(bytes: Bytes): (r: Result<Bytes>) {
    var n := AfterLastNonZero(bytes);
    if n == 0 || bytes[n - 1] != MARKER then Err(InvalidPadding) else Ok(bytes[..n - 1])
  }

  // ----- Arithmetic of the policies -----

  lemma DivCeilIsLeast(n: nat, d: nat)
    requires d > 0
    ensures n <= DivCeil(n, d) * d < n + d
    ensures DivCeil(n, d) * d % d == 0
  {
    var q := DivCeil(n, d);
    assert n == n / d * d + n % d;
    MultipleMod(q, d);
    if n % d == 0 {
      assert q * d == n;
    } else {
      assert q * d == n / d * d + d;
    }
  }

  lemma {:induction false} MultipleMod(q: nat, d: nat)
    requires d > 0
    ensures q * d % d == 0
    decreases q
  {
    if q > 0 {
      MultipleMod(q - 1, d);
      var m := (q - 1) * d;
      assert q * d == m + d;
      ModAddSelf(m, d);
    }
  }

  lemma ModAddSelf(m: nat, d: nat)
    requires d > 0
    ensures (m + d) % d == m % d
  {
    var q, r := m / d, m % d;
    assert m == q * d + r;
    assert m + d == (q + 1) * d + r;
    QuotientUnique(m + d, d, q + 1, r);
  }

  lemma QuotientUnique(m: nat, d: nat, q: nat, r: nat)
    requires 0 <= r < d && m == q * d + r
    ensures m % d == r
  {
    var q', r' := m / d, m % d;
    assert m == q' * d + r' && 0 <= r' < d;
    if q < q' {
      MultiplesApart(q, q', d);
    } else if q' < q {
      MultiplesApart(q', q, d);
    }
  }

  lemma {:induction false} MultiplesApart(a: nat, b: nat, d: nat)
    requires a < b
    ensures a * d + d <= b * d
    decreases b
  {
    assert b * d == (b - 1) * d + d;
    if a < b - 1 {
      MultiplesApart(a, b - 1, d);
    }
  }

  lemma TargetFits(padding: Padding, len: nat)
    requires padding.Valid()
    ensures match Target(padding, len)
            case Ok(Some(target)) => len < target <= USIZE_MAX
            case _ => true
  {
    if padding.Block? {
      DivCeilIsLeast(len + 1, padding.size);
    }
  }

  /** Block padding yields the least multiple of the block size strictly above the
      length, and fails exactly when that multiple is not a `usize`. */
  lemma BlockTargetIsLeastMultiple(size: nat, len: nat, multiple: nat)
    requires Padding.Block(size).Valid()
    requires multiple % size == 0 && len < multiple <= len + size
    ensures Target(Block(size), len)
         == if multiple <= USIZE_MAX then Ok(Some(multiple)) else Err(MessageTooLong)
  {
    DivCeilIsLeast(len + 1, size);
    var a, b := multiple / size, DivCeil(len + 1, size);
    assert multiple == a * size;
    // Two multiples of `size` in a window of `size` numbers are one number.
    if a < b {
      MultiplesApart(a, b, size);
    } else if b < a {
      MultiplesApart(b, a, size);
    }
    assert b * size == multiple;
  }

  /** Fixed padding yields exactly `length + 1`, whatever the length it hides, and
      fails exactly on excess or when the marker does not fit a `usize`. */
  lemma LengthTargetIsFixed(length: nat, len: nat)
    requires Padding.Length(length).Valid()
    ensures Target(Length(length), len).Ok? <==> len <= length < USIZE_MAX
    ensures len <= length < USIZE_MAX ==> Target(Length(length), len) == Ok(Some(length + 1))
    ensures len > length ==> Target(Length(length), len) == Err(PaddingOverflow)
    ensures len <= length == USIZE_MAX ==> Target(Length(length), len) == Err(MessageTooLong)
  {
  }

  // ----- Round trips -----

  /** Removing padding gives the plaintext back, even one ending in 0x80 or zeros. */
  lemma UnpadPad(padding: Padding, plaintext: Bytes)
    requires padding.Valid()
    ensures match Pad(padding, plaintext)
            case Ok(Some(padded)) => Unpad(padded) == Ok(plaintext)
            case Ok(None) => !padding.IsPadded()
            case Err(_) => padding.IsPadded()
  {
    TargetFits(padding, |plaintext|);
    match Pad(padding, plaintext)
    case Ok(Some(padded)) =>
      UnpadExactly(padded, plaintext, |padded| - |plaintext| - 1);
    case _ =>
  }

  lemma UnpadExactly(bytes: Bytes, plaintext: Bytes, zeros: nat)
    requires bytes == plaintext + [MARKER] + Zeros(zeros)
    ensures Unpad(bytes) == Ok(plaintext)
  {
    assert bytes[|plaintext|] == MARKER;
    assert AfterLastNonZero(bytes) == |plaintext| + 1;
    assert bytes[..|plaintext|] == plaintext;
  }

  /** `Unpad` succeeds exactly on a message, a marker, and zeros, and returns that
      message, which is the only one. */
  lemma UnpadAcceptsExactly(bytes: Bytes, plaintext: Bytes)
    ensures Unpad(bytes) == Ok(plaintext)
       <==> exists zeros: nat :: bytes == plaintext + [MARKER] + Zeros(zeros)
    ensures Unpad(bytes).Err? ==> Unpad(bytes) == Err(InvalidPadding)
  {
    if Unpad(bytes) == Ok(plaintext) {
      var n := AfterLastNonZero(bytes);
      assert bytes == plaintext + [MARKER] + Zeros(|bytes| - n);
    }
    forall zeros: nat | bytes == plaintext + [MARKER] + Zeros(zeros)
      ensures Unpad(bytes) == Ok(plaintext)
    {
      UnpadExactly(bytes, plaintext, zeros);
    }
  }

  // ----- The buffer operations -----

  /** Fills a buffer of `target` bytes: the plaintext, the marker, then zeros. */
  method PadToLength(plaintext: Bytes, target: nat) returns (padded: array<Byte>)
    requires |plaintext| < target
    ensures fresh(padded) && padded[..] == Marked(plaintext, target)
  {
    padded := new Byte[target](i requires 0 <= i < target => if i < |plaintext| then plaintext[i] else 0);
    padded[|plaintext|] := MARKER;
  }

  /** Scans backward for the last nonzero byte and truncates the buffer there. */
  method UnpadBuffer(bytes: Bytes) returns (r: Result<Bytes>)
    ensures r == Unpad(bytes)
  {
    var n := |bytes|;
    while n > 0 && bytes[n - 1] == 0
      invariant 0 <= n <= |bytes|
      invariant AfterLastNonZero(bytes) == AfterLastNonZero(bytes[..n])
    {
      assert bytes[..n][..n - 1] == bytes[..n - 1];
      n := n - 1;
    }
    if n == 0 || bytes[n - 1] != MARKER {
      return Err(InvalidPadding);
    }
    return Ok(bytes[..n - 1]);
  }
}
