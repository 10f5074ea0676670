/** Versioned normalizer names, `<name>/<version>`: the library checks them at compile
    time with a backward scan (src/blind.rs), the derive with a split at the last slash
    (derive/src/attr.rs). */
module Normalizers {
  import opened Bytes
  import opened Wrappers

  const SLASH: Byte := 0x2F
  const ZERO: Byte := 0x30
  const NINE: Byte := 0x39

  predicate IsDigit(byte: Byte) {
    ZERO <= byte <= NINE
  }

  predicate AllDigits(bytes: Bytes) {
    forall i :: 0 <= i < |bytes| ==> IsDigit(bytes[i])
  }

  /** Digits are the ten ASCII ones. */
  lemma DigitsAreDecimal(byte: Byte)
    ensures IsDigit(byte) <==> byte in [0x30, 0x31, 0x32, 0x33, 0x34, 0x35, 0x36, 0x37, 0x38, 0x39]
  {
  }

  /** The rule: something before a slash, and behind it only digits, at least one, the
      first of which is not zero. */
  ghost predicate IsVersioned(name: Bytes) {
    exists slash :: VersionedAt(name, slash)
  }

  ghost predicate VersionedAt(name: Bytes, slash: int) {
    && 0 < slash < |name| - 1
    && name[slash] == SLASH
    && name[slash + 1] != ZERO
    && AllDigits(name[slash + 1..])
  }

  /** The slash of a versioned name is its last. */
  lemma VersionedIsLast(name: Bytes, slash: nat)
    requires VersionedAt(name, slash)
    ensures forall j :: slash < j < |name| ==> name[j] != SLASH
  {
    assert forall j :: slash < j < |name| ==> name[j] == name[slash + 1..][j - slash - 1];
  }

  lemma OnlyVersionedAt(name: Bytes, last: nat)
    requires last <= |name|
    requires last > 0 ==> last < |name| && name[last] == SLASH
    requires last < |name| ==> SLASH !in name[last + 1..]
    ensures forall slash :: VersionedAt(name, slash) ==> slash == last
  {
    assert forall j :: last < j < |name| ==> name[j] == name[last + 1..][j - last - 1];
    forall slash | VersionedAt(name, slash)
      ensures slash == last
    {
      VersionedIsLast(name, slash);
    }
  }

  // ----- The derive's check -----

  /** Everything before and after the last slash. */
  function SplitAtLastSlash(name: Bytes): Option<(Bytes, Bytes)> {
    if name == [] then None
    else if name[|name| - 1] == SLASH then Some((name[..|name| - 1], []))
    else
      match SplitAtLastSlash(name[..|name| - 1])
      case None => None
      case Some((before, after)) => Some((before, after + [name[|name| - 1]]))
  }

  predicate DeriveAccepts(name: Bytes) {
    match SplitAtLastSlash(name)
    case None => false
    case Some((before, version)) =>
      before != [] && version != [] && version[0] != ZERO && AllDigits(version)
  }

  lemma {:induction false} SplitExactly(name: Bytes)
    ensures match SplitAtLastSlash(name)
            case None => SLASH !in name
            case Some((before, after)) => name == before + [SLASH] + after && SLASH !in after
    decreases |name|
  {
    if name != [] {
      SplitExactly(name[..|name| - 1]);
      assert name == name[..|name| - 1] + [name[|name| - 1]];
    }
  }

  /** The derive accepts exactly the versioned names. */
  lemma DeriveAcceptsExactly(name: Bytes)
    ensures DeriveAccepts(name) <==> IsVersioned(name)
  {
    SplitExactly(name);
    match SplitAtLastSlash(name)
    case None =>
    case Some((before, after)) =>
      assert name[|before|] == SLASH && name[|before| + 1..] == after;
      if DeriveAccepts(name) {
        assert VersionedAt(name, |before|);
      }
      OnlyVersionedAt(name, |before|);
  }

  // ----- The library's check -----

  method ValidNormalizer(name: Bytes) returns (r: bool)
    ensures r <==> IsVersioned(name)
    ensures r <==> DeriveAccepts(name)
  {
    DeriveAcceptsExactly(name);
    var slash := |name|;
    while slash > 0
      invariant 0 <= slash <= |name|
      invariant SLASH !in name[slash..]
      decreases slash
    {
      slash := slash - 1;
      if name[slash] == SLASH {
        break;
      }
      assert name[slash..] == [name[slash]] + name[slash + 1..];
    }
    assert slash < |name| ==> SLASH !in name[slash + 1..];
    assert slash > 0 ==> name[slash] == SLASH;
    OnlyVersionedAt(name, slash);
    if slash == 0 || name[slash] != SLASH || slash + 1 == |name| || name[slash + 1] == ZERO {
      return false;
    }
    var index := slash + 1;
    while index < |name|
      invariant slash < index <= |name|
      invariant forall i :: slash < i < index ==> IsDigit(name[i])
    {
      if !IsDigit(name[index]) {
        assert name[slash + 1..][index - slash - 1] == name[index];
        return false;
      }
      index := index + 1;
    }
    assert VersionedAt(name, slash);
    return true;
  }
}
