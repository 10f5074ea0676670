/** What the planner and the readers make of each row, exactly (src/migrate/row.rs,
    src/migrate/read.rs): every outcome and every error in its order, in terms of the row's
    bytes, the configured legacy handler, the codec and the keys. */
module PlanOutcomes {
  import opened BlindFormat
  import opened Bytes
  import opened Crypto
  import opened EnvelopeFormat
  import opened Envelopes
  import opened Keyrings
  import opened PlannerLaws
  import opened RowPlanner
  import opened Rows
  import opened SealContexts
  import opened Wrappers

  // ----- Index columns -----

  /** Whether a column's stored bytes are of its current key generation; bytes that do not
      parse are reported before keys that are missing. */
  function IsOfCurrentKey<V>(column: IndexColumn<V>, bytes: Bytes): Result<bool> {
    match InspectBlindIndex(bytes)
    case Err(error) => Err(error)
    case Ok(info) =>
      match column.keys
      case Err(error) => Err(error)
      case Ok(ring) => Ok(info.keyId == ring.current.id)
  }

  /** Column `i` is the first that is not of its current key, or cannot be told. */
  ghost predicate FirstNotCurrent<V>(columns: seq<IndexColumn<V>>, indexes: seq<Bytes>, i: nat)
    requires |columns| == |indexes|
  {
    && i < |columns| && IsOfCurrentKey(columns[i], indexes[i]) != Ok(true)
    && forall j :: 0 <= j < i ==> IsOfCurrentKey(columns[j], indexes[j]) == Ok(true)
  }

  ghost predicate AllOfCurrentKeys<V>(columns: seq<IndexColumn<V>>, indexes: seq<Bytes>)
    requires |columns| == |indexes|
  {
    forall j :: 0 <= j < |columns| ==> IsOfCurrentKey(columns[j], indexes[j]) == Ok(true)
  }

  /** Column `i` is the first that cannot be told. */
  ghost predicate FirstUnreadable<V>(columns: seq<IndexColumn<V>>, indexes: seq<Bytes>, i: nat)
    requires |columns| == |indexes|
  {
    && i < |columns| && IsOfCurrentKey(columns[i], indexes[i]).Err?
    && forall j :: 0 <= j < i ==> IsOfCurrentKey(columns[j], indexes[j]).Ok?
  }

  lemma {:induction false} AnyStaleReports<V>(columns: seq<IndexColumn<V>>, indexes: seq<Bytes>, i: nat)
    requires |columns| == |indexes| && FirstNotCurrent(columns, indexes, i)
    ensures AnyStale(columns, indexes)
         == if IsOfCurrentKey(columns[i], indexes[i]).Err? then Err(IsOfCurrentKey(columns[i], indexes[i]).error)
            else Ok(true)
    decreases |columns|
  {
    if i > 0 {
      assert IsOfCurrentKey(columns[0], indexes[0]) == Ok(true);
      forall j | 0 <= j < i - 1
        ensures IsOfCurrentKey(columns[1..][j], indexes[1..][j]) == Ok(true)
      {
        assert IsOfCurrentKey(columns[j + 1], indexes[j + 1]) == Ok(true);
      }
      AnyStaleReports(columns[1..], indexes[1..], i - 1);
    }
  }

  lemma {:induction false} NoneStaleReports<V>(columns: seq<IndexColumn<V>>, indexes: seq<Bytes>)
    requires |columns| == |indexes| && AllOfCurrentKeys(columns, indexes)
    ensures AnyStale(columns, indexes) == Ok(false)
  {
    forall j | 0 <= j < |columns|
      ensures columns[j].IsStale(indexes[j]) == Ok(false)
    {
      assert IsOfCurrentKey(columns[j], indexes[j]) == Ok(true);
    }
    NoneStaleEach(columns, indexes);
  }

  // ----- Classification -----

  /** The context a row's value is sealed in. */
  function RowContext<R, V>(p: Planner<R, V>, row: StoredRow<R>): Context {
    NewContext(p.sealId, p.recordId(row.columns))
  }

  /** The header of the envelope a planner writes for a row. */
  function CurrentInfo<R, V>(p: Planner<R, V>, columns: R): CiphertextInfo {
    CiphertextInfo(1, p.padding.IsPadded(), p.keys.current.id, FingerprintOf(KindOf(p.recordId(columns))))
  }

  /** Classification is decided by the first thing that is wrong: the number of columns, the
      magic, the envelope's structure, its kind of context, its header; then the first index
      that is not current, and later ones are not looked at. */
  lemma ClassifiesExactly<R, V>(p: Planner<R, V>, row: StoredRow<R>, info: CiphertextInfo, i: nat)
    ensures |row.indexes| != |p.indexes| ==>
              ClassifyRow(p, row) == Err(IndexColumnMismatch(|p.indexes|, |row.indexes|))
    ensures |row.indexes| == |p.indexes| && !IsCiphertext(row.ciphertext) ==> ClassifyRow(p, row) == Ok(Legacy)
    ensures |row.indexes| == |p.indexes| && IsCiphertext(row.ciphertext) && InspectCiphertext(row.ciphertext).Err? ==>
              ClassifyRow(p, row) == Err(InspectCiphertext(row.ciphertext).error)
    ensures |row.indexes| == |p.indexes| && InspectCiphertext(row.ciphertext) == Ok(info) ==>
              && (info.fingerprint != CurrentInfo(p, row.columns).fingerprint ==>
                    ClassifyRow(p, row) == Err(ContextMismatch))
              && (info.fingerprint == CurrentInfo(p, row.columns).fingerprint && info != CurrentInfo(p, row.columns) ==>
                    ClassifyRow(p, row) == Ok(Stale))
              && (info == CurrentInfo(p, row.columns) && AllOfCurrentKeys(p.indexes, row.indexes) ==>
                    ClassifyRow(p, row) == Ok(Current))
              && (info == CurrentInfo(p, row.columns) && FirstNotCurrent(p.indexes, row.indexes, i) ==>
                    var report := IsOfCurrentKey(p.indexes[i], row.indexes[i]);
                    ClassifyRow(p, row) == if report.Err? then Err(report.error) else Ok(Stale))
  {
    NotCiphertextExactly(row.ciphertext);
    if |row.indexes| == |p.indexes| && InspectCiphertext(row.ciphertext) == Ok(info) {
      NeedsResealExactly(RowContext(p, row).fingerprint, p.padding, row.ciphertext, p.keys);
      if FirstNotCurrent(p.indexes, row.indexes, i) {
        AnyStaleReports(p.indexes, row.indexes, i);
      }
      if AllOfCurrentKeys(p.indexes, row.indexes) {
        NoneStaleReports(p.indexes, row.indexes);
      }
    }
  }

  // ----- Reading -----

  /** Legacy bytes are what the configured handler recovers from them, and themselves
      without one. */
  ghost predicate Recovers<R, V>(p: Planner<R, V>, bytes: Bytes, recovered: Result<Bytes>) {
    match p.legacy
    case Some(handler) => recovered == handler(bytes)
    case None => recovered == Ok(bytes)
  }

  /** The permissive reader decodes what the handler recovers from legacy bytes, and what
      its keys open of an envelope; the strict one refuses legacy bytes, and decodes what the
      keys it was given open. */
  lemma ReadsExactly<R, V>(
    p: Planner<R, V>, row: StoredRow<R>, recovered: Result<Bytes>, plaintext: Result<Bytes>,
    keys: Ring, strictly: Result<Bytes>)
    requires Recovers(p, row.ciphertext, recovered)
    requires plaintext == Open(p.c, RowContext(p, row), row.ciphertext, p.keys)
    requires strictly == Open(p.c, RowContext(p, row), row.ciphertext, keys)
    ensures !IsCiphertext(row.ciphertext) && recovered.Err? ==> ReadPermissive(p, row) == Err(recovered.error)
    ensures !IsCiphertext(row.ciphertext) && recovered.Ok? ==> ReadPermissive(p, row) == p.decode(recovered.value)
    ensures IsCiphertext(row.ciphertext) && plaintext.Err? ==> ReadPermissive(p, row) == Err(plaintext.error)
    ensures IsCiphertext(row.ciphertext) && plaintext.Ok? ==> ReadPermissive(p, row) == p.decode(plaintext.value)
    ensures !IsCiphertext(row.ciphertext) ==> ReadStrict(p, keys, row) == Err(NotCiphertext)
    ensures IsCiphertext(row.ciphertext) && strictly.Err? ==> ReadStrict(p, keys, row) == Err(strictly.error)
    ensures IsCiphertext(row.ciphertext) && strictly.Ok? ==> ReadStrict(p, keys, row) == p.decode(strictly.value)
  {
    NotCiphertextExactly(row.ciphertext);
  }

  // ----- Legacy rows -----

  /** Column `i` is the first for which no index can be derived. */
  ghost predicate FirstUnderivable<V>(c: Primitives, columns: seq<IndexColumn<V>>, due: seq<bool>, value: V, i: nat)
    requires |columns| == |due|
    requires forall column :: column in columns ==> ValidBits(column.spec.bits)
  {
    && i < |columns| && due[i] && columns[i].Derive(c, value).Err?
    && forall j :: 0 <= j < i && due[j] ==> columns[j].Derive(c, value).Ok?
  }

  lemma {:induction false} DeriveAllReports<V>(
    c: Primitives, columns: seq<IndexColumn<V>>, due: seq<bool>, value: V, i: nat)
    requires forall column :: column in columns ==> ValidBits(column.spec.bits)
    requires |columns| == |due| && (forall j :: 0 <= j < |due| ==> due[j])
    requires FirstUnderivable(c, columns, due, value, i)
    ensures DeriveAll(c, columns, value) == Err(columns[i].Derive(c, value).error)
    decreases |columns|
  {
    if i > 0 {
      assert due[0] && columns[0].Derive(c, value).Ok?;
      forall j | 0 <= j < i - 1 && due[1..][j]
        ensures columns[1..][j].Derive(c, value).Ok?
      {
        assert due[j + 1] && columns[j + 1].Derive(c, value).Ok?;
      }
      assert due[1..][i - 1] && columns[1..][i - 1] == columns[i];
      DeriveAllReports(c, columns[1..], due[1..], value, i - 1);
    }
  }

  lemma {:induction false} ReplaceStaleReports<V>(
    c: Primitives, columns: seq<IndexColumn<V>>, indexes: seq<Bytes>, stale: seq<bool>, value: V, i: nat)
    requires forall column :: column in columns ==> ValidBits(column.spec.bits)
    requires |columns| == |indexes| == |stale| && FirstUnderivable(c, columns, stale, value, i)
    ensures ReplaceStale(c, columns, indexes, stale, value) == Err(columns[i].Derive(c, value).error)
    decreases |columns|
  {
    if i > 0 {
      assert stale[0] ==> columns[0].Derive(c, value).Ok?;
      forall j | 0 <= j < i - 1 && stale[1..][j]
        ensures columns[1..][j].Derive(c, value).Ok?
      {
        assert stale[j + 1] ==> columns[j + 1].Derive(c, value).Ok?;
      }
      assert stale[1..][i - 1] == stale[i] && columns[1..][i - 1] == columns[i];
      ReplaceStaleReports(c, columns[1..], indexes[1..], stale[1..], value, i - 1);
    }
  }

  /** Migrating a legacy row recovers, decodes, encodes, seals and indexes, in this order,
      and the first failure is its error. */
  lemma LegacyReports<R, V>(
    p: Planner<R, V>, row: StoredRow<R>, entropy: Entropy, recovered: Result<Bytes>, value: V, plaintext: Bytes,
    ciphertext: Bytes, all: seq<bool>, i: nat)
    requires p.Configured() && |row.indexes| == |p.indexes| && !IsCiphertext(row.ciphertext)
    requires Recovers(p, row.ciphertext, recovered)
    requires |all| == |p.indexes| && forall j :: 0 <= j < |all| ==> all[j]
    ensures recovered.Err? ==> PlanRow(p, row, entropy) == Err(recovered.error)
    ensures recovered.Ok? && p.decode(recovered.value).Err? ==>
              PlanRow(p, row, entropy) == Err(p.decode(recovered.value).error)
    ensures recovered.Ok? && p.decode(recovered.value) == Ok(value) && p.encode(value).Err? ==>
              PlanRow(p, row, entropy) == Err(p.encode(value).error)
    ensures recovered.Ok? && p.decode(recovered.value) == Ok(value) && p.encode(value) == Ok(plaintext) ==>
              var sealed := Seal(p.c, RowContext(p, row), p.padding, plaintext, p.keys, entropy);
              && (sealed.Err? ==> PlanRow(p, row, entropy) == Err(sealed.error))
              && (sealed.Ok? && FirstUnderivable(p.c, p.indexes, all, value, i) ==>
                    PlanRow(p, row, entropy) == Err(p.indexes[i].Derive(p.c, value).error))
  {
    NotCiphertextExactly(row.ciphertext);
    UnsealedRefinesClassify(p, row, entropy);
    if FirstUnderivable(p.c, p.indexes, all, value, i) {
      DeriveAllReports(p.c, p.indexes, all, value, i);
    }
  }

  /** A migrated legacy row is written as the envelope of what its recovered value encodes
      to, with every index derived from that value; and it reads as that value. */
  lemma LegacyWrites<R, V(!new)>(p: Planner<R, V>, row: StoredRow<R>, entropy: Entropy, recovered: Result<Bytes>)
    requires Valid(p) && !IsCiphertext(row.ciphertext) && Recovers(p, row.ciphertext, recovered)
    requires PlanRow(p, row, entropy).Ok?
    ensures recovered.Ok? && p.decode(recovered.value).Ok?
    ensures var value, planned := p.decode(recovered.value).value, PlanRow(p, row, entropy).value;
            && planned.Rewrite? && planned.state == Legacy
            && p.encode(value).Ok?
            && Seal(p.c, RowContext(p, row), p.padding, p.encode(value).value, p.keys, entropy)
               == Ok(planned.write.ciphertext)
            && Open(p.c, RowContext(p, row), planned.write.ciphertext, p.keys) == p.encode(value)
            && |planned.write.indexes| == |p.indexes|
            && (forall i :: 0 <= i < |p.indexes| ==> p.indexes[i].Derive(p.c, value) == Ok(planned.write.indexes[i]))
            && ReadPermissive(p, Written(row, planned.write)) == Ok(value)
  {
    NotCiphertextExactly(row.ciphertext);
    PlanRefinesClassify(p, row, entropy);
    UnsealedRefinesClassify(p, row, entropy);
    var value := p.decode(recovered.value).value;
    DeriveAllEach(p.c, p.indexes, value);
    GetExact(p.keys, p.keys.current.id, p.keys.current);
    OpenSeal(p.c, RowContext(p, row), p.padding, p.encode(value).value, p.keys, entropy, p.keys);
    SealParses(p.c, RowContext(p, row), p.padding, p.encode(value).value, p.keys, entropy);
  }

  // ----- Sealed rows -----

  /** Which columns are stale. */
  ghost predicate AreStale<V>(columns: seq<IndexColumn<V>>, indexes: seq<Bytes>, stale: seq<bool>)
    requires |columns| == |indexes|
  {
    && |stale| == |columns|
    && forall j :: 0 <= j < |columns| ==> IsOfCurrentKey(columns[j], indexes[j]) == Ok(!stale[j])
  }

  lemma {:induction false} StaleColumnsReports<V>(columns: seq<IndexColumn<V>>, indexes: seq<Bytes>, i: nat)
    requires |columns| == |indexes| && FirstUnreadable(columns, indexes, i)
    ensures StaleColumns(columns, indexes) == Err(IsOfCurrentKey(columns[i], indexes[i]).error)
    decreases |columns|
  {
    if i > 0 {
      assert IsOfCurrentKey(columns[0], indexes[0]).Ok?;
      forall j | 0 <= j < i - 1
        ensures IsOfCurrentKey(columns[1..][j], indexes[1..][j]).Ok?
      {
        assert IsOfCurrentKey(columns[j + 1], indexes[j + 1]).Ok?;
      }
      StaleColumnsReports(columns[1..], indexes[1..], i - 1);
    }
  }

  lemma {:induction false} StaleColumnsAre<V>(columns: seq<IndexColumn<V>>, indexes: seq<Bytes>, stale: seq<bool>)
    requires |columns| == |indexes| && AreStale(columns, indexes, stale)
    ensures StaleColumns(columns, indexes) == Ok(stale)
    decreases |columns|
  {
    if columns != [] {
      assert IsOfCurrentKey(columns[0], indexes[0]) == Ok(!stale[0]);
      forall j | 0 <= j < |columns| - 1
        ensures IsOfCurrentKey(columns[1..][j], indexes[1..][j]) == Ok(!stale[1..][j])
      {
        assert IsOfCurrentKey(columns[j + 1], indexes[j + 1]) == Ok(!stale[j + 1]);
      }
      StaleColumnsAre(columns[1..], indexes[1..], stale[1..]);
      assert stale == [stale[0]] + stale[1..];
    }
  }

  /** Every index of a sealed row is looked at before anything is opened: the first that
      cannot be told is the plan's error, though classification may stop before it. */
  lemma UnreadableIndexReports<R, V>(
    p: Planner<R, V>, row: StoredRow<R>, entropy: Entropy, info: CiphertextInfo, i: nat)
    requires p.Configured() && |row.indexes| == |p.indexes| && InspectCiphertext(row.ciphertext) == Ok(info)
    requires info.fingerprint == CurrentInfo(p, row.columns).fingerprint
    requires FirstUnreadable(p.indexes, row.indexes, i)
    ensures PlanRow(p, row, entropy) == Err(IsOfCurrentKey(p.indexes[i], row.indexes[i]).error)
  {
    NeedsResealExactly(RowContext(p, row).fingerprint, p.padding, row.ciphertext, p.keys);
    EnvelopeRefinesClassify(p, row, entropy);
    StaleColumnsReports(p.indexes, row.indexes, i);
  }

  /** A sealed row none of whose components is stale is left alone. Otherwise its envelope
      is opened, sealed anew if its header is not current, and its value decoded only if an
      index is stale; the first failure is the plan's error. */
  lemma SealedReports<R, V>(
    p: Planner<R, V>, row: StoredRow<R>, entropy: Entropy, info: CiphertextInfo, stale: seq<bool>,
    plaintext: Bytes, value: V, i: nat)
    requires p.Configured() && |row.indexes| == |p.indexes| && InspectCiphertext(row.ciphertext) == Ok(info)
    requires info.fingerprint == CurrentInfo(p, row.columns).fingerprint && AreStale(p.indexes, row.indexes, stale)
    ensures var context, current := RowContext(p, row), info == CurrentInfo(p, row.columns);
            var read := Open(p.c, context, row.ciphertext, p.keys);
            && (current && true !in stale ==> PlanRow(p, row, entropy) == Ok(Unchanged(Current)))
            && (read.Err? && !(current && true !in stale) ==> PlanRow(p, row, entropy) == Err(read.error))
            && (read == Ok(plaintext) ==>
                  var sealed := Seal(p.c, context, p.padding, plaintext, p.keys, entropy);
                  && (!current && sealed.Err? ==> PlanRow(p, row, entropy) == Err(sealed.error))
                  && ((current || sealed.Ok?) && true in stale && p.decode(plaintext).Err? ==>
                        PlanRow(p, row, entropy) == Err(p.decode(plaintext).error))
                  && ((current || sealed.Ok?) && p.decode(plaintext) == Ok(value)
                      && FirstUnderivable(p.c, p.indexes, stale, value, i) ==>
                        PlanRow(p, row, entropy) == Err(p.indexes[i].Derive(p.c, value).error)))
  {
    NeedsResealExactly(RowContext(p, row).fingerprint, p.padding, row.ciphertext, p.keys);
    EnvelopeRefinesClassify(p, row, entropy);
    StaleColumnsAre(p.indexes, row.indexes, stale);
    if p.decode(plaintext) == Ok(value) && FirstUnderivable(p.c, p.indexes, stale, value, i) {
      assert stale[i];
      ReplaceStaleReports(p.c, p.indexes, row.indexes, stale, value, i);
    }
  }

  /** What a stale row is rewritten to: its own envelope if the header is current, else a
      fresh one of the same plaintext; for each stale index a fresh derivation from the
      value, and every other index's own bytes. */
  lemma SealedWrites<R, V>(
    p: Planner<R, V>, row: StoredRow<R>, entropy: Entropy, info: CiphertextInfo, stale: seq<bool>)
    requires p.Configured() && |row.indexes| == |p.indexes| && InspectCiphertext(row.ciphertext) == Ok(info)
    requires info.fingerprint == CurrentInfo(p, row.columns).fingerprint && AreStale(p.indexes, row.indexes, stale)
    requires PlanRow(p, row, entropy).Ok? && PlanRow(p, row, entropy).value.Rewrite?
    ensures PlanRow(p, row, entropy).value.state == Stale
    ensures var write, context := PlanRow(p, row, entropy).value.write, RowContext(p, row);
            var read := Open(p.c, context, row.ciphertext, p.keys);
            && read.Ok?
            && (if info == CurrentInfo(p, row.columns) then write.ciphertext == row.ciphertext
                else Seal(p.c, context, p.padding, read.value, p.keys, entropy) == Ok(write.ciphertext))
            && |write.indexes| == |p.indexes|
            && forall i :: 0 <= i < |p.indexes| ==>
                 if stale[i] then
                   p.decode(read.value).Ok?
                   && p.indexes[i].Derive(p.c, p.decode(read.value).value) == Ok(write.indexes[i])
                 else write.indexes[i] == row.indexes[i]
  {
    NeedsResealExactly(RowContext(p, row).fingerprint, p.padding, row.ciphertext, p.keys);
    EnvelopeRefinesClassify(p, row, entropy);
    StaleColumnsAre(p.indexes, row.indexes, stale);
    if true in stale {
      var plaintext := Open(p.c, RowContext(p, row), row.ciphertext, p.keys).value;
      ReplaceStaleEach(p.c, p.indexes, row.indexes, stale, p.decode(plaintext).value);
    }
  }
}
