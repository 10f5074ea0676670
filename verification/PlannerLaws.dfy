/** What the planner guarantees about any row: planning refines classification, its
    output is a fixed point, and a rewrite changes no value a reader sees. */
module PlannerLaws {
  import opened BlindFormat
  import opened BlindIndexes
  import opened Bytes
  import opened Crypto
  import opened EnvelopeFormat
  import opened Envelopes
  import opened Keyrings
  import opened PaddingPolicy
  import opened RowPlanner
  import opened Rows
  import opened SealContexts
  import opened Wrappers

  // ----- Planning refines classification -----

  lemma {:induction false} AnyStaleOfColumns<V>(columns: seq<IndexColumn<V>>, indexes: seq<Bytes>)
    requires |columns| == |indexes|
    ensures StaleColumns(columns, indexes).Ok? ==>
              AnyStale(columns, indexes) == Ok(true in StaleColumns(columns, indexes).value)
    ensures AnyStale(columns, indexes) == Ok(false) ==> StaleColumns(columns, indexes).Ok?
    ensures AnyStale(columns, indexes).Err? ==>
              StaleColumns(columns, indexes) == Err(AnyStale(columns, indexes).error)
  {
    if columns != [] {
      AnyStaleOfColumns(columns[1..], indexes[1..]);
      var stale := columns[0].IsStale(indexes[0]);
      if StaleColumns(columns, indexes).Ok? {
        var others := StaleColumns(columns[1..], indexes[1..]).value;
        assert true in [stale.value] + others <==> stale.value || true in others;
      }
    }
  }

  /** Planning a row succeeds only with its classification, rewrites exactly the rows
      that are not current, and fails as classification fails. That a classified row also
      plans is false (`UnknownKeyDoesNotPlan`); `PlansExactly` says which rows do. */
  lemma PlanRefinesClassify<R, V>(p: Planner<R, V>, row: StoredRow<R>, entropy: Entropy)
    requires p.Configured()
    ensures PlanRow(p, row, entropy).Ok? ==>
              && ClassifyRow(p, row) == Ok(PlanRow(p, row, entropy).value.state)
              && (PlanRow(p, row, entropy).value.Unchanged? <==> ClassifyRow(p, row) == Ok(Current))
    ensures ClassifyRow(p, row).Err? ==> PlanRow(p, row, entropy) == Err(ClassifyRow(p, row).error)
    ensures ClassifyRow(p, row) == Ok(Current) ==> PlanRow(p, row, entropy) == Ok(Unchanged(Current))
  {
    if |row.indexes| == |p.indexes| {
      if InspectCiphertext(row.ciphertext).Ok? {
        var context := p.ContextOf(row.columns);
        EnvelopeRefinesClassify(p, row, entropy);
        SealedRefinesClassify(p, context, row,
          NeedsReseal(context.fingerprint, p.padding, row.ciphertext, p.keys), entropy);
      } else {
        UnsealedRefinesClassify(p, row, entropy);
      }
    }
  }

  lemma UnsealedRefinesClassify<R, V>(p: Planner<R, V>, row: StoredRow<R>, entropy: Entropy)
    requires p.Configured() && |row.indexes| == |p.indexes|
    requires InspectCiphertext(row.ciphertext).Err?
    ensures var error := InspectCiphertext(row.ciphertext).error;
            if error == NotCiphertext then
              && ClassifyRow(p, row) == Ok(Legacy)
              && PlanRow(p, row, entropy) == PlanLegacyRow(p, p.ContextOf(row.columns), row.ciphertext, entropy)
            else ClassifyRow(p, row) == Err(error) && PlanRow(p, row, entropy) == Err(error)
  {
  }

  lemma EnvelopeRefinesClassify<R, V>(p: Planner<R, V>, row: StoredRow<R>, entropy: Entropy)
    requires p.Configured() && |row.indexes| == |p.indexes|
    requires InspectCiphertext(row.ciphertext).Ok?
    ensures var context := p.ContextOf(row.columns);
            var needed := NeedsReseal(context.fingerprint, p.padding, row.ciphertext, p.keys);
            && ClassifyRow(p, row) == ClassifySealed(p, row, needed)
            && PlanRow(p, row, entropy) == PlanSealed(p, context, row, needed, entropy)
  {
  }

  lemma SealedRefinesClassify<R, V>(
    p: Planner<R, V>, context: Context, row: StoredRow<R>, needed: Result<bool>, entropy: Entropy)
    requires p.Configured() && |row.indexes| == |p.indexes|
    ensures var classified := ClassifySealed(p, row, needed);
            var planned := PlanSealed(p, context, row, needed, entropy);
            && (planned.Ok? ==> classified == Ok(planned.value.state))
            && (planned.Ok? ==> (planned.value.Unchanged? <==> classified == Ok(Current)))
            && (classified.Err? ==> planned == Err(classified.error))
            && (classified == Ok(Current) ==> planned == Ok(Unchanged(Current)))
  {
    AnyStaleOfColumns(p.indexes, row.indexes);
  }

  /** What `Current` means, structurally: an envelope of the row's kind of context under
      the current key and padding policy, and every index under its current key. */
  lemma CurrentExactly<R, V>(p: Planner<R, V>, row: StoredRow<R>)
    ensures ClassifyRow(p, row) == Ok(Current) <==>
              && |row.indexes| == |p.indexes|
              && InspectCiphertext(row.ciphertext).Ok?
              && NeedsReseal(p.ContextOf(row.columns).fingerprint, p.padding, row.ciphertext, p.keys) == Ok(false)
              && AnyStale(p.indexes, row.indexes) == Ok(false)
  {
    NotCiphertextExactly(row.ciphertext);
  }

  /** A row is legacy exactly when its bytes lack the envelope magic; a malformed
      envelope is never taken for legacy data. */
  lemma LegacyExactly<R, V>(p: Planner<R, V>, row: StoredRow<R>)
    ensures ClassifyRow(p, row) == Ok(Legacy) <==>
              |row.indexes| == |p.indexes| && !(MAGIC <= row.ciphertext)
  {
    NotCiphertextExactly(row.ciphertext);
  }

  /** The premises can be met: a planner over the transparent primitives is valid, and
      rewrites an empty legacy row. */
  lemma ValidPlannerExists() returns (p: Planner<(), Bytes>)
    ensures Valid(p)
    ensures var row := StoredRow((), [], []);
            var planned := PlanRow(p, row, Ok(Zeros(24)));
            ClassifyRow(p, row) == Ok(Legacy) && planned.Ok? && planned.value.Rewrite?
  {
    LawsHaveAModel();
    var key := Key(Zeros(16), []);
    p := Planner(Transparent(), Ring(key, [key]), Zeros(16), NoPadding, value => Ok(value), bytes => Ok(bytes),
                 _ => None, None, []);
    SealSucceedsExactly(p.c, p.ContextOf(()), NoPadding, [], p.keys, Ok(Zeros(24)));
    NotCiphertextExactly([]);
  }

  lemma {:induction false} NoneStaleEach<V>(columns: seq<IndexColumn<V>>, indexes: seq<Bytes>)
    requires |columns| == |indexes|
    ensures AnyStale(columns, indexes) == Ok(false)
       <==> forall i :: 0 <= i < |columns| ==> columns[i].IsStale(indexes[i]) == Ok(false)
  {
    if columns != [] {
      NoneStaleEach(columns[1..], indexes[1..]);
      if forall i :: 0 <= i < |columns| ==> columns[i].IsStale(indexes[i]) == Ok(false) {
        assert columns[0].IsStale(indexes[0]) == Ok(false);
        forall i | 0 <= i < |columns[1..]|
          ensures columns[1..][i].IsStale(indexes[1..][i]) == Ok(false)
        {
          assert columns[i + 1].IsStale(indexes[i + 1]) == Ok(false);
        }
      }
      if AnyStale(columns, indexes) == Ok(false) {
        forall i | 0 <= i < |columns|
          ensures columns[i].IsStale(indexes[i]) == Ok(false)
        {
          if i > 0 {
            assert columns[1..][i - 1].IsStale(indexes[1..][i - 1]) == Ok(false);
          }
        }
      }
    }
  }

  // ----- Which rows plan -----

  /** An envelope of the row's kind under a key the ring lacks is stale, yet cannot be
      planned: nothing can decrypt it. */
  lemma UnknownKeyDoesNotPlan<R, V>(p: Planner<R, V>, row: StoredRow<R>, entropy: Entropy)
    requires p.Configured() && p.keys.Valid() && |row.indexes| == |p.indexes|
    requires InspectCiphertext(row.ciphertext).Ok?
    requires InspectCiphertext(row.ciphertext).value.fingerprint == p.ContextOf(row.columns).fingerprint
    requires p.keys.Get(InspectCiphertext(row.ciphertext).value.keyId) == None
    ensures ClassifyRow(p, row) == Ok(Stale) && PlanRow(p, row, entropy).Err?
  {
    var info, context := InspectCiphertext(row.ciphertext).value, p.ContextOf(row.columns);
    GetExact(p.keys, info.keyId, p.keys.current);
    NeedsResealExactly(context.fingerprint, p.padding, row.ciphertext, p.keys);
    EnvelopeRefinesClassify(p, row, entropy);
  }

  /** Such envelopes are what any writer with another current key seals. */
  lemma OtherWritersRowDoesNotPlan<R, V>(
    p: Planner<R, V>, row: StoredRow<R>, plaintext: Bytes, writer: Ring, nonce: Entropy, entropy: Entropy)
    requires p.Configured() && p.keys.Valid() && p.c.Lawful() && |row.indexes| == |p.indexes|
    requires Seal(p.c, p.ContextOf(row.columns), p.padding, plaintext, writer, nonce) == Ok(row.ciphertext)
    requires p.keys.Get(writer.current.id) == None
    ensures ClassifyRow(p, row) == Ok(Stale) && PlanRow(p, row, entropy).Err?
  {
    SealParses(p.c, p.ContextOf(row.columns), p.padding, plaintext, writer, nonce);
    UnknownKeyDoesNotPlan(p, row, entropy);
  }

  /** A legacy row can be migrated: it reads, and its value encodes, seals and indexes. */
  ghost predicate CanMigrate<R, V>(p: Planner<R, V>, row: StoredRow<R>, entropy: Entropy)
    requires p.Configured()
  {
    && ReadPermissive(p, row).Ok?
    && var value := ReadPermissive(p, row).value;
       && p.encode(value).Ok?
       && Seal(p.c, p.ContextOf(row.columns), p.padding, p.encode(value).value, p.keys, entropy).Ok?
       && forall i :: 0 <= i < |p.indexes| ==> p.indexes[i].Derive(p.c, value).Ok?
  }

  /** A stale row can be refreshed: every index parses, its envelope opens, a stale
      envelope seals anew, and every stale index derives from the decoded value. */
  ghost predicate CanRefresh<R, V>(p: Planner<R, V>, row: StoredRow<R>, entropy: Entropy)
    requires p.Configured() && |row.indexes| == |p.indexes|
  {
    var context := p.ContextOf(row.columns);
    && (forall i :: 0 <= i < |p.indexes| ==> p.indexes[i].IsStale(row.indexes[i]).Ok?)
    && Open(p.c, context, row.ciphertext, p.keys).Ok?
    && var plaintext := Open(p.c, context, row.ciphertext, p.keys).value;
       && (NeedsReseal(context.fingerprint, p.padding, row.ciphertext, p.keys) == Ok(true) ==>
            Seal(p.c, context, p.padding, plaintext, p.keys, entropy).Ok?)
       && forall i :: 0 <= i < |p.indexes| && p.indexes[i].IsStale(row.indexes[i]) == Ok(true) ==>
            p.decode(plaintext).Ok? && p.indexes[i].Derive(p.c, p.decode(plaintext).value).Ok?
  }

  /** Exactly which rows plan: those that classify, and that can be migrated if legacy or
      refreshed if stale. */
  lemma PlansExactly<R, V>(p: Planner<R, V>, row: StoredRow<R>, entropy: Entropy)
    requires p.Configured()
    ensures PlanRow(p, row, entropy).Ok? <==>
              match ClassifyRow(p, row)
              case Err(_) => false
              case Ok(Current) => true
              case Ok(Legacy) => CanMigrate(p, row, entropy)
              case Ok(Stale) => |row.indexes| == |p.indexes| && CanRefresh(p, row, entropy)
  {
    PlanRefinesClassify(p, row, entropy);
    if ClassifyRow(p, row) == Ok(Legacy) {
      LegacyPlansExactly(p, row, entropy);
    } else if ClassifyRow(p, row) == Ok(Stale) {
      StalePlansExactly(p, row, entropy);
    }
  }

  lemma LegacyPlansExactly<R, V>(p: Planner<R, V>, row: StoredRow<R>, entropy: Entropy)
    requires p.Configured() && ClassifyRow(p, row) == Ok(Legacy)
    ensures PlanRow(p, row, entropy).Ok? <==> CanMigrate(p, row, entropy)
  {
    NotCiphertextExactly(row.ciphertext);
    UnsealedRefinesClassify(p, row, entropy);
    if ReadPermissive(p, row).Ok? {
      DeriveAllExactly(p.c, p.indexes, ReadPermissive(p, row).value);
    }
  }

  lemma StalePlansExactly<R, V>(p: Planner<R, V>, row: StoredRow<R>, entropy: Entropy)
    requires p.Configured() && ClassifyRow(p, row) == Ok(Stale)
    ensures |row.indexes| == |p.indexes|
    ensures PlanRow(p, row, entropy).Ok? <==> CanRefresh(p, row, entropy)
  {
    var context := p.ContextOf(row.columns);
    var needed := NeedsReseal(context.fingerprint, p.padding, row.ciphertext, p.keys);
    EnvelopeRefinesClassify(p, row, entropy);
    SealedPlansExactly(p, context, row, needed, entropy);
  }

  lemma SealedPlansExactly<R, V>(
    p: Planner<R, V>, context: Context, row: StoredRow<R>, needed: Result<bool>, entropy: Entropy)
    requires p.Configured() && |row.indexes| == |p.indexes|
    requires context == p.ContextOf(row.columns)
    requires needed == NeedsReseal(context.fingerprint, p.padding, row.ciphertext, p.keys)
    requires ClassifySealed(p, row, needed) == Ok(Stale)
    ensures PlanSealed(p, context, row, needed, entropy).Ok? <==> CanRefresh(p, row, entropy)
  {
    SealedRefinesClassify(p, context, row, needed, entropy);
    StaleColumnsExactly(p.indexes, row.indexes);
    if StaleColumns(p.indexes, row.indexes).Ok? && Open(p.c, context, row.ciphertext, p.keys).Ok? {
      IndexesRefreshExactly(p, row.indexes, StaleColumns(p.indexes, row.indexes).value,
        Open(p.c, context, row.ciphertext, p.keys).value);
    }
  }

  lemma {:induction false} StaleColumnsExactly<V>(columns: seq<IndexColumn<V>>, indexes: seq<Bytes>)
    requires |columns| == |indexes|
    ensures StaleColumns(columns, indexes).Ok? <==>
              forall i :: 0 <= i < |columns| ==> columns[i].IsStale(indexes[i]).Ok?
  {
    if columns != [] {
      StaleColumnsExactly(columns[1..], indexes[1..]);
      assert forall i :: 1 <= i < |columns| ==> columns[i] == columns[1..][i - 1] && indexes[i] == indexes[1..][i - 1];
      assert columns[0].IsStale(indexes[0]).Ok? && StaleColumns(columns[1..], indexes[1..]).Ok? <==>
          StaleColumns(columns, indexes).Ok?;
      if StaleColumns(columns, indexes).Ok? {
        StaleColumnsEach(columns, indexes);
      } else if columns[0].IsStale(indexes[0]).Ok? {
        var i :| 0 <= i < |columns[1..]| && columns[1..][i].IsStale(indexes[1..][i]).Err?;
        assert columns[i + 1].IsStale(indexes[i + 1]).Err?;
      }
    }
  }

  lemma {:induction false} DeriveAllExactly<V>(c: Primitives, columns: seq<IndexColumn<V>>, value: V)
    requires forall column :: column in columns ==> ValidBits(column.spec.bits)
    ensures DeriveAll(c, columns, value).Ok? <==>
              forall i :: 0 <= i < |columns| ==> columns[i].Derive(c, value).Ok?
  {
    if DeriveAll(c, columns, value).Ok? {
      DeriveAllEach(c, columns, value);
    } else {
      DeriveAllExactly(c, columns[1..], value);
      if columns[0].Derive(c, value).Ok? {
        var i :| 0 <= i < |columns[1..]| && columns[1..][i].Derive(c, value).Err?;
        assert columns[i + 1].Derive(c, value).Err?;
      }
    }
  }

  lemma {:induction false} ReplaceStaleExactly<V>(
    c: Primitives, columns: seq<IndexColumn<V>>, indexes: seq<Bytes>, stale: seq<bool>, value: V)
    requires |columns| == |indexes| == |stale|
    requires forall column :: column in columns ==> ValidBits(column.spec.bits)
    ensures ReplaceStale(c, columns, indexes, stale, value).Ok? <==>
              forall i :: 0 <= i < |columns| && stale[i] ==> columns[i].Derive(c, value).Ok?
  {
    if ReplaceStale(c, columns, indexes, stale, value).Ok? {
      ReplaceStaleEach(c, columns, indexes, stale, value);
    } else {
      ReplaceStaleExactly(c, columns[1..], indexes[1..], stale[1..], value);
      if stale[0] ==> columns[0].Derive(c, value).Ok? {
        var i :| 0 <= i < |columns[1..]| && stale[1..][i] && columns[1..][i].Derive(c, value).Err?;
        assert stale[i + 1] && columns[i + 1].Derive(c, value).Err?;
      }
    }
  }

  lemma {:induction false} IndexesRefreshExactly<R, V>(
    p: Planner<R, V>, indexes: seq<Bytes>, stale: seq<bool>, plaintext: Bytes)
    requires p.Configured() && |p.indexes| == |indexes| && StaleColumns(p.indexes, indexes) == Ok(stale)
    ensures RefreshIndexes(p, indexes, stale, plaintext).Ok? <==>
              forall i :: 0 <= i < |p.indexes| && p.indexes[i].IsStale(indexes[i]) == Ok(true) ==>
                p.decode(plaintext).Ok? && p.indexes[i].Derive(p.c, p.decode(plaintext).value).Ok?
  {
    StaleColumnsEach(p.indexes, indexes);
    assert forall i :: 0 <= i < |p.indexes| ==> (p.indexes[i].IsStale(indexes[i]) == Ok(true) <==> stale[i]);
    FlaggedRefreshExactly(p, indexes, stale, plaintext);
  }

  lemma FlaggedRefreshExactly<R, V>(p: Planner<R, V>, indexes: seq<Bytes>, stale: seq<bool>, plaintext: Bytes)
    requires p.Configured() && |p.indexes| == |indexes| == |stale|
    ensures RefreshIndexes(p, indexes, stale, plaintext).Ok? <==>
              forall i :: 0 <= i < |p.indexes| && stale[i] ==>
                p.decode(plaintext).Ok? && p.indexes[i].Derive(p.c, p.decode(plaintext).value).Ok?
  {
    if true in stale {
      var i :| 0 <= i < |stale| && stale[i];
      if p.decode(plaintext).Ok? {
        ReplaceStaleExactly(p.c, p.indexes, indexes, stale, p.decode(plaintext).value);
      }
    }
  }

  // ----- The fixed point -----

  /** A freshly derived index is never stale. */
  lemma DerivedIsCurrent<V>(c: Primitives, column: IndexColumn<V>, value: V)
    requires ValidBits(column.spec.bits)
    requires column.Derive(c, value).Ok?
    ensures column.IsStale(column.Derive(c, value).value) == Ok(false)
  {
    var spec := column.spec;
    var normalized := spec.normalizeValue(value).value;
    DerivedParses(c, normalized, IndexContext(spec.sealId), spec.indexId, spec.bits, column.keys.value.current);
  }

  lemma {:induction false} DeriveAllEach<V>(c: Primitives, columns: seq<IndexColumn<V>>, value: V)
    requires forall column :: column in columns ==> ValidBits(column.spec.bits)
    requires DeriveAll(c, columns, value).Ok?
    ensures forall i :: 0 <= i < |columns| ==>
              columns[i].Derive(c, value) == Ok(DeriveAll(c, columns, value).value[i])
  {
    forall i | 0 <= i < |columns|
      ensures columns[i].Derive(c, value) == Ok(DeriveAll(c, columns, value).value[i])
    {
      DeriveAllAt(c, columns, value, i, columns[i], DeriveAll(c, columns, value).value);
    }
  }

  lemma {:induction false} DeriveAllAt<V>(
    c: Primitives, columns: seq<IndexColumn<V>>, value: V, i: nat, column: IndexColumn<V>, indexes: seq<Bytes>)
    requires forall column :: column in columns ==> ValidBits(column.spec.bits)
    requires DeriveAll(c, columns, value) == Ok(indexes) && i < |columns| && columns[i] == column
    ensures column.Derive(c, value) == Ok(indexes[i])
    decreases |columns|
  {
    if i > 0 {
      DeriveAllAt(c, columns[1..], value, i - 1, column, indexes[1..]);
    }
  }

  lemma {:induction false} StaleColumnsEach<V>(columns: seq<IndexColumn<V>>, indexes: seq<Bytes>)
    requires |columns| == |indexes|
    requires StaleColumns(columns, indexes).Ok?
    ensures forall i :: 0 <= i < |columns| ==>
              columns[i].IsStale(indexes[i]) == Ok(StaleColumns(columns, indexes).value[i])
  {
    if columns != [] {
      StaleColumnsEach(columns[1..], indexes[1..]);
      forall i | 0 < i < |columns|
        ensures columns[i].IsStale(indexes[i]) == Ok(StaleColumns(columns, indexes).value[i])
      {
        assert columns[1..][i - 1] == columns[i] && indexes[1..][i - 1] == indexes[i];
      }
    }
  }

  /** A replaced column is the derivation; a kept one is its own bytes. */
  lemma {:induction false} ReplaceStaleEach<V>(
    c: Primitives, columns: seq<IndexColumn<V>>, indexes: seq<Bytes>, stale: seq<bool>, value: V)
    requires |columns| == |indexes| == |stale|
    requires forall column :: column in columns ==> ValidBits(column.spec.bits)
    requires ReplaceStale(c, columns, indexes, stale, value).Ok?
    ensures var out := ReplaceStale(c, columns, indexes, stale, value).value;
            forall i :: 0 <= i < |columns| ==>
              if stale[i] then columns[i].Derive(c, value) == Ok(out[i]) else out[i] == indexes[i]
  {
    if columns != [] {
      ReplaceStaleEach(c, columns[1..], indexes[1..], stale[1..], value);
      var out := ReplaceStale(c, columns, indexes, stale, value).value;
      forall i | 0 < i < |columns|
        ensures if stale[i] then columns[i].Derive(c, value) == Ok(out[i]) else out[i] == indexes[i]
      {
        assert columns[1..][i - 1] == columns[i] && indexes[1..][i - 1] == indexes[i] && stale[1..][i - 1] == stale[i];
      }
    }
  }

  /** Where each index of a rewrite comes from: its column's derivation from the value
      the row reads as, or its own bytes, which were current. */
  lemma IndexOrigins<R, V(!new)>(p: Planner<R, V>, row: StoredRow<R>, entropy: Entropy)
    requires Valid(p)
    requires PlanRow(p, row, entropy).Ok? && PlanRow(p, row, entropy).value.Rewrite?
    ensures var write := PlanRow(p, row, entropy).value.write;
            && |write.indexes| == |row.indexes| == |p.indexes|
            && forall i :: 0 <= i < |p.indexes| ==>
                 || (ReadPermissive(p, row).Ok?
                     && p.indexes[i].Derive(p.c, ReadPermissive(p, row).value) == Ok(write.indexes[i]))
                 || (InspectCiphertext(row.ciphertext).Ok?
                     && write.indexes[i] == row.indexes[i]
                     && p.indexes[i].IsStale(row.indexes[i]) == Ok(false))
  {
    PlanRefinesClassify(p, row, entropy);
    if InspectCiphertext(row.ciphertext).Err? {
      UnsealedRefinesClassify(p, row, entropy);
      DeriveAllEach(p.c, p.indexes, ReadPermissive(p, row).value);
    } else {
      EnvelopeRefinesClassify(p, row, entropy);
      RefreshReads(p, row, entropy);
      StaleIndexOrigins(p, row, StaleColumns(p.indexes, row.indexes).value, ReadPermissive(p, row),
        Open(p.c, p.ContextOf(row.columns), row.ciphertext, p.keys).value);
    }
  }

  lemma StaleIndexOrigins<R, V>(
    p: Planner<R, V>, row: StoredRow<R>, stale: seq<bool>, value: Result<V>, plaintext: Bytes)
    requires p.Configured() && |row.indexes| == |p.indexes|
    requires StaleColumns(p.indexes, row.indexes) == Ok(stale)
    requires value == p.decode(plaintext)
    ensures var replaced := RefreshIndexes(p, row.indexes, stale, plaintext);
            replaced.Ok? ==>
              && |replaced.value| == |p.indexes|
              && forall i :: 0 <= i < |p.indexes| ==>
                   || (value.Ok? && p.indexes[i].Derive(p.c, value.value) == Ok(replaced.value[i]))
                   || (replaced.value[i] == row.indexes[i] && p.indexes[i].IsStale(row.indexes[i]) == Ok(false))
  {
    StaleColumnsEach(p.indexes, row.indexes);
    if true in stale && RefreshIndexes(p, row.indexes, stale, plaintext).Ok? {
      ReplaceStaleEach(p.c, p.indexes, row.indexes, stale, value.value);
    }
  }

  /** The plaintext a stale row's rewrite derives from is the one its reader opens, and
      the refreshed envelope opens to it and needs no reseal. */
  lemma RefreshReads<R, V(!new)>(p: Planner<R, V>, row: StoredRow<R>, entropy: Entropy)
    requires Valid(p)
    requires InspectCiphertext(row.ciphertext).Ok?
    ensures var context := p.ContextOf(row.columns);
            var needed := NeedsReseal(context.fingerprint, p.padding, row.ciphertext, p.keys);
            needed.Ok? ==>
              var refreshed := Refresh(p, context, row.ciphertext, needed.value, entropy);
              refreshed.Ok? ==>
                && Open(p.c, context, row.ciphertext, p.keys) == Ok(refreshed.value.plaintext)
                && Open(p.c, context, refreshed.value.ciphertext, p.keys) == Ok(refreshed.value.plaintext)
                && InspectCiphertext(refreshed.value.ciphertext).Ok?
                && NeedsReseal(context.fingerprint, p.padding, refreshed.value.ciphertext, p.keys) == Ok(false)
  {
    var context := p.ContextOf(row.columns);
    var needed := NeedsReseal(context.fingerprint, p.padding, row.ciphertext, p.keys);
    if needed.Ok? && Refresh(p, context, row.ciphertext, needed.value, entropy).Ok? {
      if needed.value {
        ResealIsCurrent(p.c, context, p.keys, context, p.keys, p.padding, row.ciphertext, entropy);
      }
    }
  }

  /** A recovered legacy row is sealed to an envelope that needs no reseal and reads as
      the recovered value. */
  lemma LegacySealReads<R, V(!new)>(p: Planner<R, V>, context: Context, bytes: Bytes, entropy: Entropy)
    requires Valid(p)
    requires PlanLegacyRow(p, context, bytes, entropy).Ok?
    ensures var write := PlanLegacyRow(p, context, bytes, entropy).value.write;
            && InspectCiphertext(write.ciphertext).Ok?
            && NeedsReseal(context.fingerprint, p.padding, write.ciphertext, p.keys) == Ok(false)
            && Open(p.c, context, write.ciphertext, p.keys).Ok?
            && Recover(p, bytes).Ok?
            && p.decode(Open(p.c, context, write.ciphertext, p.keys).value) == p.decode(Recover(p, bytes).value)
  {
    var value := p.decode(Recover(p, bytes).value).value;
    var plaintext := p.encode(value).value;
    GetExact(p.keys, p.keys.current.id, p.keys.current);
    SealParses(p.c, context, p.padding, plaintext, p.keys, entropy);
    OpenSeal(p.c, context, p.padding, plaintext, p.keys, entropy, p.keys);
    NeedsResealExactly(context.fingerprint, p.padding,
      Seal(p.c, context, p.padding, plaintext, p.keys, entropy).value, p.keys);
  }

  /** The envelope a rewrite stores. */
  lemma RewrittenEnvelope<R, V(!new)>(p: Planner<R, V>, row: StoredRow<R>, entropy: Entropy)
    requires Valid(p)
    requires PlanRow(p, row, entropy).Ok? && PlanRow(p, row, entropy).value.Rewrite?
    ensures var write := PlanRow(p, row, entropy).value.write;
            && InspectCiphertext(write.ciphertext).Ok?
            && NeedsReseal(p.ContextOf(row.columns).fingerprint, p.padding, write.ciphertext, p.keys) == Ok(false)
            && ReadPermissive(p, Written(row, write)) == ReadPermissive(p, row)
  {
    var context := p.ContextOf(row.columns);
    if InspectCiphertext(row.ciphertext).Err? {
      LegacySealReads(p, context, row.ciphertext, entropy);
    } else {
      RefreshReads(p, row, entropy);
    }
  }

  /** A reader sees the same value, or the same error, before and after a rewrite. */
  lemma RewriteKeepsValue<R, V(!new)>(p: Planner<R, V>, row: StoredRow<R>, entropy: Entropy)
    requires Valid(p)
    requires PlanRow(p, row, entropy).Ok? && PlanRow(p, row, entropy).value.Rewrite?
    ensures ReadPermissive(p, Written(row, PlanRow(p, row, entropy).value.write)) == ReadPermissive(p, row)
  {
    RewrittenEnvelope(p, row, entropy);
  }

  /** The planner's output is a fixed point: what it writes classifies as current, and
      planning it again, with any randomness, writes nothing. */
  lemma RewriteIsFixedPoint<R, V(!new)>(p: Planner<R, V>, row: StoredRow<R>, entropy: Entropy, again: Entropy)
    requires Valid(p)
    requires PlanRow(p, row, entropy).Ok? && PlanRow(p, row, entropy).value.Rewrite?
    ensures var written := Written(row, PlanRow(p, row, entropy).value.write);
            && ClassifyRow(p, written) == Ok(Current)
            && PlanRow(p, written, again) == Ok(Unchanged(Current))
  {
    var write := PlanRow(p, row, entropy).value.write;
    var written := Written(row, write);
    RewrittenEnvelope(p, row, entropy);
    IndexOrigins(p, row, entropy);
    forall i | 0 <= i < |p.indexes|
      ensures p.indexes[i].IsStale(write.indexes[i]) == Ok(false)
    {
      if ReadPermissive(p, row).Ok? && p.indexes[i].Derive(p.c, ReadPermissive(p, row).value) == Ok(write.indexes[i]) {
        DerivedIsCurrent(p.c, p.indexes[i], ReadPermissive(p, row).value);
      }
    }
    NoneStaleEach(p.indexes, write.indexes);
    CurrentExactly(p, written);
    PlanRefinesClassify(p, written, again);
  }

  /** A row that needs a rewrite needs one under any record ID: the same bytes are
      current in no row. A compare-and-swap on the bytes alone is therefore enough to
      leave a row alone that another writer made current. */
  lemma StaleBytesAreNeverCurrent<R, V>(p: Planner<R, V>, row: StoredRow<R>, columns: R)
    requires ClassifyRow(p, row).Ok? && ClassifyRow(p, row) != Ok(Current)
    ensures ClassifyRow(p, StoredRow(columns, row.ciphertext, row.indexes)) != Ok(Current)
  {
    NotCiphertextExactly(row.ciphertext);
  }

  // ----- Reading -----

  /** Once a row is current, retiring the previous keys and the legacy handler changes
      nothing: the strict read is the permissive one. */
  lemma StrictReadOfCurrent<R, V>(p: Planner<R, V>, row: StoredRow<R>)
    requires p.keys.Valid()
    requires ClassifyRow(p, row) == Ok(Current)
    ensures ReadStrict(p, CurrentOnly(p.keys), row) == ReadPermissive(p, row)
  {
    CurrentExactly(p, row);
    CurrentEnvelopeNeedsNoPreviousKeys(p.c, p.ContextOf(row.columns), p.padding, row.ciphertext, p.keys);
  }

  // ----- Index consistency -----

  /** Some key of the column's ring derived `bytes` from `value`. */
  ghost predicate IndexMatches<V>(c: Primitives, column: IndexColumn<V>, bytes: Bytes, value: V)
    requires ValidBits(column.spec.bits)
  {
    && column.keys.Ok?
    && exists key :: key in column.keys.value.keys && DeriveWithKey(c, column.spec, value, key) == Ok(bytes)
  }

  /** A sealed row's indexes were each derived from the value it holds. Legacy rows, and
      rows that do not open, have nothing to be consistent with. */
  ghost predicate IndexesConsistent<R, V>(p: Planner<R, V>, row: StoredRow<R>)
    requires p.Configured()
  {
    InspectCiphertext(row.ciphertext).Ok? && ReadPermissive(p, row).Ok? ==>
      && |row.indexes| == |p.indexes|
      && forall i :: 0 <= i < |p.indexes| ==>
           IndexMatches(p.c, p.indexes[i], row.indexes[i], ReadPermissive(p, row).value)
  }

  /** A rewrite keeps indexes consistent, and a migrated legacy row gets consistent
      ones, whatever bytes its index columns held. */
  lemma RewriteKeepsConsistency<R, V(!new)>(p: Planner<R, V>, row: StoredRow<R>, entropy: Entropy)
    requires Valid(p)
    requires PlanRow(p, row, entropy).Ok? && PlanRow(p, row, entropy).value.Rewrite?
    requires IndexesConsistent(p, row)
    ensures IndexesConsistent(p, Written(row, PlanRow(p, row, entropy).value.write))
  {
    var write := PlanRow(p, row, entropy).value.write;
    RewrittenEnvelope(p, row, entropy);
    IndexOrigins(p, row, entropy);
    if ReadPermissive(p, row).Ok? {
      var value := ReadPermissive(p, row).value;
      forall i | 0 <= i < |p.indexes|
        ensures IndexMatches(p.c, p.indexes[i], write.indexes[i], value)
      {
        var column := p.indexes[i];
        if column.Derive(p.c, value) == Ok(write.indexes[i]) {
          assert column.Valid();
          assert DeriveWithKey(p.c, column.spec, value, column.keys.value.current) == Ok(write.indexes[i]);
        }
      }
    }
  }

  /** After convergence, every consistent index is the derivation under its current
      key: complete bytes, not just the key ID, agree. */
  lemma ConsistentCurrentIsDerived<R, V(!new)>(p: Planner<R, V>, row: StoredRow<R>, i: nat)
    requires Valid(p) && i < |p.indexes|
    requires ClassifyRow(p, row) == Ok(Current)
    requires IndexesConsistent(p, row) && ReadPermissive(p, row).Ok?
    ensures |row.indexes| == |p.indexes|
    ensures p.indexes[i].Derive(p.c, ReadPermissive(p, row).value) == Ok(row.indexes[i])
  {
    CurrentExactly(p, row);
    NoneStaleEach(p.indexes, row.indexes);
    var column, value := p.indexes[i], ReadPermissive(p, row).value;
    assert column.Valid() && column.IsStale(row.indexes[i]) == Ok(false);
    assert IndexMatches(p.c, column, row.indexes[i], value);
    var ring := column.keys.value;
    var key :| key in ring.keys && DeriveWithKey(p.c, column.spec, value, key) == Ok(row.indexes[i]);
    var normalized := column.spec.normalizeValue(value).value;
    DerivedParses(p.c, normalized, IndexContext(column.spec.sealId), column.spec.indexId, column.spec.bits, key);
    GetExact(ring, key.id, key);
    GetExact(ring, key.id, ring.current);
  }

  // ----- What the library's own writers write -----

  /** A value sealed under the row's record ID with the planner's keys and padding, with
      every index derived from it under the current index keys. */
  function Fresh<R, V>(p: Planner<R, V>, columns: R, value: V, entropy: Entropy): Result<StoredRow<R>>
    requires p.Configured()
  {
    var plaintext :- p.encode(value);
    var ciphertext :- Seal(p.c, p.ContextOf(columns), p.padding, plaintext, p.keys, entropy);
    var indexes :- DeriveAll(p.c, p.indexes, value);
    Ok(StoredRow(columns, ciphertext, indexes))
  }

  /** Such rows meet every premise on writers: they are current, their indexes are
      consistent, and they read as the value. */
  lemma FreshIsCurrent<R, V(!new)>(p: Planner<R, V>, columns: R, value: V, entropy: Entropy)
    requires Valid(p) && Fresh(p, columns, value, entropy).Ok?
    ensures var row := Fresh(p, columns, value, entropy).value;
            && ClassifyRow(p, row) == Ok(Current)
            && ReadPermissive(p, row) == Ok(value)
            && IndexesConsistent(p, row)
  {
    var row := Fresh(p, columns, value, entropy).value;
    FreshEnvelope(p, columns, value, entropy);
    DeriveAllEach(p.c, p.indexes, value);
    forall i | 0 <= i < |p.indexes|
      ensures p.indexes[i].IsStale(row.indexes[i]) == Ok(false)
      ensures IndexMatches(p.c, p.indexes[i], row.indexes[i], value)
    {
      assert p.indexes[i].Valid();
      DerivedIsCurrent(p.c, p.indexes[i], value);
      assert DeriveWithKey(p.c, p.indexes[i].spec, value, p.indexes[i].keys.value.current) == Ok(row.indexes[i]);
    }
    NoneStaleEach(p.indexes, row.indexes);
    CurrentExactly(p, row);
  }

  lemma FreshEnvelope<R, V(!new)>(p: Planner<R, V>, columns: R, value: V, entropy: Entropy)
    requires Valid(p) && Fresh(p, columns, value, entropy).Ok?
    ensures var row := Fresh(p, columns, value, entropy).value;
            && row.columns == columns && InspectCiphertext(row.ciphertext).Ok?
            && NeedsReseal(p.ContextOf(columns).fingerprint, p.padding, row.ciphertext, p.keys) == Ok(false)
            && ReadPermissive(p, row) == Ok(value)
  {
    var context, plaintext := p.ContextOf(columns), p.encode(value).value;
    GetExact(p.keys, p.keys.current.id, p.keys.current);
    SealParses(p.c, context, p.padding, plaintext, p.keys, entropy);
    OpenSeal(p.c, context, p.padding, plaintext, p.keys, entropy, p.keys);
    NeedsResealExactly(context.fingerprint, p.padding,
      Seal(p.c, context, p.padding, plaintext, p.keys, entropy).value, p.keys);
  }
}
