/** Rows whose record ID changes under a sweep. An update compares a row's ciphertext and
    indexes, not the columns of its record ID, so a rewrite planned under one record ID
    may land on the same bytes under another. */
module MovedRecords {
  import opened Binding
  import opened Bytes
  import opened Crypto
  import opened EnvelopeFormat
  import opened EnvelopeSuite
  import opened Envelopes
  import opened Keyrings
  import opened Migration
  import opened PaddingPolicy
  import opened PlannerLaws
  import opened RowPlanner
  import opened Rows
  import opened SealContexts
  import opened SweepProtocol
  import opened SweepTheorems
  import opened Wrappers

  /** An envelope that opens under the record ID of `here` opens under no other, and there
      it reports exactly what authentication can tell. */
  ghost predicate OpensOnlyHere<R, V>(p: Planner<R, V>, ciphertext: Bytes, here: R, there: R) {
    p.recordId(here) != p.recordId(there) && Open(p.c, p.ContextOf(here), ciphertext, p.keys).Ok? ==>
      Open(p.c, p.ContextOf(there), ciphertext, p.keys)
        == Err(ErrorElsewhere(p.recordId(here), p.recordId(there)))
  }

  /** That is what the ideal log gives: the attempt is no forgery, and the envelope was
      sealed only here. */
  lemma UnforgedOpensOnlyHere<R, V>(p: Planner<R, V>, ciphertext: Bytes, here: R, there: R, log: set<Sealing>)
    requires p.c.Lawful()
    requires OnlySealedFor(p.c, log, p.sealId, p.recordId(here), ciphertext)
    requires NotForged(p.c, log, Attempt(p.c, p.ContextOf(there), ciphertext, p.keys))
    ensures OpensOnlyHere(p, ciphertext, here, there)
  {
    if p.recordId(here) != p.recordId(there) && Open(p.c, p.ContextOf(here), ciphertext, p.keys).Ok? {
      FailsElsewhereExactly(p.c, log, p.sealId, p.recordId(here), p.sealId, p.recordId(there), ciphertext, p.keys);
    }
  }

  /** A rewrite that lands on moved bytes leaves the row reading as it did exactly when
      the record ID is the same, or the bytes were an envelope already. A sealed row that
      moved reads as an error before and after; a legacy row loses its value. */
  lemma LandsWellExactly<R(!new), V(!new)>(p: Planner<R, V>, row: StoredRow<R>, entropy: Entropy, there: R)
    requires Valid(p) && Rewrites(Rules(p), row, entropy)
    requires OpensOnlyHere(p, row.ciphertext, row.columns, there)
    requires OpensOnlyHere(p, PlanRow(p, row, entropy).value.write.ciphertext, row.columns, there)
    ensures LandsWell(Rules(p), row, entropy, there)
       <==> p.recordId(there) == p.recordId(row.columns) || IsCiphertext(row.ciphertext)
  {
    if p.recordId(there) == p.recordId(row.columns) {
      SameRecordLandsWell(p, row, entropy, there);
    } else if IsCiphertext(row.ciphertext) {
      SealedLandsWell(p, row, entropy, there);
    } else {
      LegacyIsLost(p, row, entropy, there);
    }
  }

  lemma SameRecordLandsWell<R, V(!new)>(p: Planner<R, V>, row: StoredRow<R>, entropy: Entropy, there: R)
    requires Valid(p) && PlanRow(p, row, entropy).Ok? && PlanRow(p, row, entropy).value.Rewrite?
    requires p.recordId(there) == p.recordId(row.columns)
    ensures var found := StoredRow(there, row.ciphertext, row.indexes);
            ReadPermissive(p, Written(found, PlanRow(p, row, entropy).value.write)) == ReadPermissive(p, found)
  {
    var found := StoredRow(there, row.ciphertext, row.indexes);
    PlanIgnoresColumns(p, row, found, entropy);
    RewriteKeepsValue(p, found, entropy);
  }

  /** Planning reads a row's columns only for its record ID. */
  lemma PlanIgnoresColumns<R, V>(p: Planner<R, V>, row: StoredRow<R>, found: StoredRow<R>, entropy: Entropy)
    requires p.Configured() && p.recordId(found.columns) == p.recordId(row.columns)
    requires found.ciphertext == row.ciphertext && found.indexes == row.indexes
    ensures PlanRow(p, found, entropy) == PlanRow(p, row, entropy)
  {
    if |row.indexes| == |p.indexes| && InspectCiphertext(row.ciphertext).Ok? {
      var context := p.ContextOf(row.columns);
      var needed := NeedsReseal(context.fingerprint, p.padding, row.ciphertext, p.keys);
      EnvelopeRefinesClassify(p, row, entropy);
      EnvelopeRefinesClassify(p, found, entropy);
      SealedPlanIgnoresColumns(p, context, row, found, needed, entropy);
    }
  }

  lemma SealedPlanIgnoresColumns<R, V>(
    p: Planner<R, V>, context: Context, row: StoredRow<R>, found: StoredRow<R>, needed: Result<bool>, entropy: Entropy)
    requires p.Configured() && |row.indexes| == |p.indexes|
    requires found.ciphertext == row.ciphertext && found.indexes == row.indexes
    ensures PlanSealed(p, context, found, needed, entropy) == PlanSealed(p, context, row, needed, entropy)
  {
  }

  lemma RefreshedOpens<R, V(!new)>(p: Planner<R, V>, row: StoredRow<R>, entropy: Entropy)
    requires Valid(p) && PlanRow(p, row, entropy).Ok? && PlanRow(p, row, entropy).value.Rewrite?
    requires IsCiphertext(row.ciphertext)
    ensures var write := PlanRow(p, row, entropy).value.write;
            && InspectCiphertext(write.ciphertext).Ok?
            && Open(p.c, p.ContextOf(row.columns), write.ciphertext, p.keys).Ok?
            && InspectCiphertext(row.ciphertext).Ok?
            && Open(p.c, p.ContextOf(row.columns), row.ciphertext, p.keys).Ok?
  {
    var context := p.ContextOf(row.columns);
    PlannedIsWellFormed(p, row, entropy);
    EnvelopeRefinesClassify(p, row, entropy);
    RefreshIsWritten(p, context, row, NeedsReseal(context.fingerprint, p.padding, row.ciphertext, p.keys), entropy);
    RefreshReads(p, row, entropy);
  }

  lemma PlannedIsWellFormed<R, V>(p: Planner<R, V>, row: StoredRow<R>, entropy: Entropy)
    requires p.Configured() && PlanRow(p, row, entropy).Ok? && IsCiphertext(row.ciphertext)
    ensures |row.indexes| == |p.indexes| && InspectCiphertext(row.ciphertext).Ok?
  {
    NotCiphertextExactly(row.ciphertext);
  }

  lemma RefreshIsWritten<R, V>(
    p: Planner<R, V>, context: Context, row: StoredRow<R>, needed: Result<bool>, entropy: Entropy)
    requires p.Configured() && |row.indexes| == |p.indexes|
    requires PlanSealed(p, context, row, needed, entropy).Ok?
    requires PlanSealed(p, context, row, needed, entropy).value.Rewrite?
    ensures needed.Ok? && Refresh(p, context, row.ciphertext, needed.value, entropy).Ok?
    ensures Refresh(p, context, row.ciphertext, needed.value, entropy).value.ciphertext
         == PlanSealed(p, context, row, needed, entropy).value.write.ciphertext
  {
  }

  lemma MigratedOpens<R, V(!new)>(p: Planner<R, V>, row: StoredRow<R>, entropy: Entropy)
    requires Valid(p) && PlanRow(p, row, entropy).Ok? && PlanRow(p, row, entropy).value.Rewrite?
    requires !IsCiphertext(row.ciphertext)
    ensures var write := PlanRow(p, row, entropy).value.write;
            && InspectCiphertext(write.ciphertext).Ok?
            && Open(p.c, p.ContextOf(row.columns), write.ciphertext, p.keys).Ok?
  {
    PlanRefinesClassify(p, row, entropy);
    UnsealedRefinesClassify(p, row, entropy);
    LegacySealReads(p, p.ContextOf(row.columns), row.ciphertext, entropy);
  }

  /** What a rewrite stores opens under the record ID it was planned for, and so did the
      envelope it was planned from. */
  lemma PlannedOpens<R, V(!new)>(p: Planner<R, V>, row: StoredRow<R>, entropy: Entropy)
    requires Valid(p) && PlanRow(p, row, entropy).Ok? && PlanRow(p, row, entropy).value.Rewrite?
    ensures var write := PlanRow(p, row, entropy).value.write;
            && InspectCiphertext(write.ciphertext).Ok?
            && Open(p.c, p.ContextOf(row.columns), write.ciphertext, p.keys).Ok?
            && (IsCiphertext(row.ciphertext) ==>
                  && InspectCiphertext(row.ciphertext).Ok?
                  && Open(p.c, p.ContextOf(row.columns), row.ciphertext, p.keys).Ok?)
  {
    if IsCiphertext(row.ciphertext) {
      RefreshedOpens(p, row, entropy);
    } else {
      MigratedOpens(p, row, entropy);
    }
  }

  lemma SealedLandsWell<R, V(!new)>(p: Planner<R, V>, row: StoredRow<R>, entropy: Entropy, there: R)
    requires Valid(p) && PlanRow(p, row, entropy).Ok? && PlanRow(p, row, entropy).value.Rewrite?
    requires p.recordId(there) != p.recordId(row.columns) && IsCiphertext(row.ciphertext)
    requires OpensOnlyHere(p, row.ciphertext, row.columns, there)
    requires OpensOnlyHere(p, PlanRow(p, row, entropy).value.write.ciphertext, row.columns, there)
    ensures var found := StoredRow(there, row.ciphertext, row.indexes);
            var elsewhere := ErrorElsewhere(p.recordId(row.columns), p.recordId(there));
            && ReadPermissive(p, found) == Err(elsewhere)
            && ReadPermissive(p, Written(found, PlanRow(p, row, entropy).value.write)) == Err(elsewhere)
  {
    PlannedOpens(p, row, entropy);
  }

  lemma LegacyIsLost<R, V(!new)>(p: Planner<R, V>, row: StoredRow<R>, entropy: Entropy, there: R)
    requires Valid(p) && PlanRow(p, row, entropy).Ok? && PlanRow(p, row, entropy).value.Rewrite?
    requires p.recordId(there) != p.recordId(row.columns) && !IsCiphertext(row.ciphertext)
    requires OpensOnlyHere(p, PlanRow(p, row, entropy).value.write.ciphertext, row.columns, there)
    ensures var found := StoredRow(there, row.ciphertext, row.indexes);
            && ReadPermissive(p, found).Ok?
            && ReadPermissive(p, Written(found, PlanRow(p, row, entropy).value.write))
               == Err(ErrorElsewhere(p.recordId(row.columns), p.recordId(there)))
  {
    PlannedOpens(p, row, entropy);
    LegacyStillReads(p, row, entropy, there);
  }

  lemma LegacyStillReads<R, V(!new)>(p: Planner<R, V>, row: StoredRow<R>, entropy: Entropy, there: R)
    requires Valid(p) && PlanRow(p, row, entropy).Ok? && !IsCiphertext(row.ciphertext)
    ensures ReadPermissive(p, StoredRow(there, row.ciphertext, row.indexes)).Ok?
  {
    NotCiphertextExactly(row.ciphertext);
    PlanRefinesClassify(p, row, entropy);
    UnsealedRefinesClassify(p, row, entropy);
  }

  /** The same, of one attempt on each envelope: if neither is a forgery and each was
      sealed only for the row it was planned for, a moved row keeps its reading exactly
      when it keeps its record ID or was sealed before. */
  lemma MovedRowReadsAlikeExactly<R(!new), V(!new)>(
    p: Planner<R, V>, row: StoredRow<R>, entropy: Entropy, there: R, log: set<Sealing>)
    requires Valid(p) && PlanRow(p, row, entropy).Ok? && PlanRow(p, row, entropy).value.Rewrite?
    requires OnlySealedFor(p.c, log, p.sealId, p.recordId(row.columns), row.ciphertext)
    requires OnlySealedFor(p.c, log, p.sealId, p.recordId(row.columns), PlanRow(p, row, entropy).value.write.ciphertext)
    requires NotForged(p.c, log, Attempt(p.c, p.ContextOf(there), row.ciphertext, p.keys))
    requires NotForged(p.c, log,
               Attempt(p.c, p.ContextOf(there), PlanRow(p, row, entropy).value.write.ciphertext, p.keys))
    ensures var found := StoredRow(there, row.ciphertext, row.indexes);
            var landed := Written(found, PlanRow(p, row, entropy).value.write);
            var keeps := p.recordId(there) == p.recordId(row.columns) || IsCiphertext(row.ciphertext);
            ReadPermissive(p, landed) == ReadPermissive(p, found) <==> keeps
  {
    UnforgedOpensOnlyHere(p, row.ciphertext, row.columns, there, log);
    UnforgedOpensOnlyHere(p, PlanRow(p, row, entropy).value.write.ciphertext, row.columns, there, log);
    LandsWellExactly(p, row, entropy, there);
  }

  // ----- Whole runs -----

  /** If the event makes an update and it meets the row under another record ID: the row
      was sealed, neither its envelope nor the new one was sealed for another record, and
      opening them there is no forgery. Only the two attempts at hand are spoken of. */
  ghost predicate GenuineWhereMoved<R, V>(
    p: Planner<R, V>, s: State<R>, event: Event<R>, log: set<Sealing>)
    requires p.Configured()
  {
    UpdatesRow(p, s, event) ==>
      var row := s.Of(event.worker).batch[s.Of(event.worker).done];
      var there := s.table[row.cursor].columns;
      p.recordId(there) == p.recordId(row.row.columns)
        || (IsCiphertext(row.row.ciphertext) && Genuine(p, row.row, event.entropy, there, log))
  }

  ghost predicate UpdatesRow<R, V>(p: Planner<R, V>, s: State<R>, event: Event<R>)
    requires p.Configured()
  {
    && event.Process? && s.Of(event.worker).Processing? && s.Of(event.worker).done < |s.Of(event.worker).batch|
    && var row := s.Of(event.worker).batch[s.Of(event.worker).done];
       Matches(s.table, row) && Rewrites(Rules(p), row.row, event.entropy)
  }

  ghost predicate Genuine<R, V>(p: Planner<R, V>, row: StoredRow<R>, entropy: Entropy, there: R, log: set<Sealing>)
    requires p.Configured() && PlanRow(p, row, entropy).Ok? && PlanRow(p, row, entropy).value.Rewrite?
  {
    var written := PlanRow(p, row, entropy).value.write.ciphertext;
    && OnlySealedFor(p.c, log, p.sealId, p.recordId(row.columns), row.ciphertext)
    && OnlySealedFor(p.c, log, p.sealId, p.recordId(row.columns), written)
    && NotForged(p.c, log, Attempt(p.c, p.ContextOf(there), row.ciphertext, p.keys))
    && NotForged(p.c, log, Attempt(p.c, p.ContextOf(there), written, p.keys))
  }

  lemma GenuineLandsWell<R(!new), V(!new)>(p: Planner<R, V>, s: State<R>, event: Event<R>, log: set<Sealing>)
    requires Valid(p) && GenuineWhereMoved(p, s, event, log)
    ensures UpdateLandsWell(Rules(p), s, event)
  {
    if UpdatesRow(p, s, event) {
      var row := s.Of(event.worker).batch[s.Of(event.worker).done];
      var there := s.table[row.cursor].columns;
      if p.recordId(there) == p.recordId(row.row.columns) {
        SameRecordLandsWell(p, row.row, event.entropy, there);
      } else {
        MovedRowReadsAlikeExactly(p, row.row, event.entropy, there, log);
      }
    }
  }

  /** Nothing is lost over any run each of whose updates either meets the record ID it was
      planned for, or rewrites a sealed row whose two envelopes are genuine. */
  lemma {:induction false} NothingIsLostWhereGenuine<R(!new), V(!new)>(
    p: Planner<R, V>, limit: nat, s: State<R>, events: seq<Event<R>>, log: set<Sealing>)
    requires Valid(p)
    requires forall i :: 0 <= i < |events| ==>
               GenuineWhereMoved(p, Execute(Rules(p), limit, s, events[..i]), events[i], log)
    ensures UpdatesLandWell(Rules(p), limit, s, events)
    ensures Values(Rules(p), Execute(Rules(p), limit, s, events).table)
         == ForeignOnly(Rules(p), Values(Rules(p), s.table), events)
  {
    forall i | 0 <= i < |events|
      ensures UpdateLandsWell(Rules(p), Execute(Rules(p), limit, s, events[..i]), events[i])
    {
      GenuineLandsWell(p, Execute(Rules(p), limit, s, events[..i]), events[i], log);
    }
    NothingIsLost(Rules(p), limit, s, events);
  }

  ghost function Sealed(): (Bytes, seq<Bytes>) -> bool {
    (ciphertext, indexes) => IsCiphertext(ciphertext)
  }

  /** The same, asking of writers instead that legacy rows keep their record IDs: then no
      update of a legacy row can meet another one. */
  lemma {:induction false} NothingIsLostIfLegacyStays<R(!new), V(!new)>(
    p: Planner<R, V>, limit: nat, s: State<R>, events: seq<Event<R>>, anchor: map<int, R>, log: set<Sealing>)
    requires Valid(p) && Anchored(s, anchor, Sealed())
    requires forall i :: 0 <= i < |events| ==> WritesInPlace(events[i], anchor, Sealed())
    requires forall i :: 0 <= i < |events| ==>
               SealedIsGenuine(p, Execute(Rules(p), limit, s, events[..i]), events[i], log)
    ensures UpdatesLandWell(Rules(p), limit, s, events)
    ensures Values(Rules(p), Execute(Rules(p), limit, s, events).table)
         == ForeignOnly(Rules(p), Values(Rules(p), s.table), events)
  {
    RewritesAreSealed(p);
    forall i | 0 <= i < |events|
      ensures GenuineWhereMoved(p, Execute(Rules(p), limit, s, events[..i]), events[i], log)
    {
      forall j | 0 <= j < i
        ensures WritesInPlace(events[..i][j], anchor, Sealed())
      {
        assert WritesInPlace(events[j], anchor, Sealed());
      }
      AnchoredAlways(Rules(p), limit, s, events[..i], anchor, Sealed());
      LegacyMeetsItsRecord(p, Execute(Rules(p), limit, s, events[..i]), events[i], anchor, log);
    }
    NothingIsLostWhereGenuine(p, limit, s, events, log);
  }

  /** An update of a sealed row that meets another record ID is genuine. */
  ghost predicate SealedIsGenuine<R, V>(p: Planner<R, V>, s: State<R>, event: Event<R>, log: set<Sealing>)
    requires p.Configured()
  {
    UpdatesRow(p, s, event) ==>
      var row := s.Of(event.worker).batch[s.Of(event.worker).done];
      var there := s.table[row.cursor].columns;
      IsCiphertext(row.row.ciphertext) && p.recordId(there) != p.recordId(row.row.columns) ==>
        Genuine(p, row.row, event.entropy, there, log)
  }

  lemma LegacyMeetsItsRecord<R, V>(
    p: Planner<R, V>, s: State<R>, event: Event<R>, anchor: map<int, R>, log: set<Sealing>)
    requires p.Configured() && Anchored(s, anchor, Sealed()) && SealedIsGenuine(p, s, event, log)
    ensures GenuineWhereMoved(p, s, event, log)
  {
    if UpdatesRow(p, s, event) {
      var row := s.Of(event.worker).batch[s.Of(event.worker).done];
      assert WorkerAnchored(s.Of(event.worker), anchor, Sealed());
      assert InPlace(row.row, row.cursor, anchor, Sealed());
      assert InPlace(s.table[row.cursor], row.cursor, anchor, Sealed());
    }
  }

  lemma RewritesAreSealed<R(!new), V(!new)>(p: Planner<R, V>)
    requires Valid(p)
    ensures RewritesAreFree(Rules(p), Sealed())
  {
    forall row, entropy
      ensures RewriteIsFree(Rules(p), Sealed(), row, entropy)
    {
      if Rewrites(Rules(p), row, entropy) {
        RewrittenEnvelope(p, row, entropy);
        NotCiphertextExactly(PlanRow(p, row, entropy).value.write.ciphertext);
      }
    }
  }

  // ----- A witness -----

  /** The data a UUID record's envelope authenticates end with the UUID. */
  lemma AadEndsWithRecord(prefix: Bytes, sealId: Id, id: Id)
    ensures TagOf(EnvelopeAad(prefix, Encode(sealId, Some(Uuid(id))))) == id
  {
    var head := sealId + BigEndian(1, 2) + [Uuid(id).Kind().Code()] + BigEndian(16, 4);
    EndsWith(ENVELOPE_AAD_LABEL + prefix, head, id, EnvelopeAad(prefix, Encode(sealId, Some(Uuid(id)))));
  }

  lemma EndsWith(front: Bytes, head: Bytes, id: Id, whole: Bytes)
    requires whole == front + (head + id)
    ensures TagOf(whole) == id
  {
    assert whole == (front + head) + id;
  }

  /** Over the checking primitives no envelope opens under two UUID record IDs. */
  lemma CheckingBindsUuids<V>(p: Planner<Id, V>, ciphertext: Bytes, here: Id, there: Id)
    requires p.c == Checking()
    requires p.recordId(here) == Some(Uuid(here)) && p.recordId(there) == Some(Uuid(there))
    ensures OpensOnlyHere(p, ciphertext, here, there)
  {
    if here != there && Open(p.c, p.ContextOf(here), ciphertext, p.keys).Ok? {
      OpenIsAttempt(p.c, p.ContextOf(here), ciphertext, p.keys);
      AttemptParts(p.c, p.ContextOf(here), ciphertext, p.keys);
      SameKindAttempts(p.c, p.ContextOf(here), p.ContextOf(there), ciphertext, p.keys);
      AttemptParts(p.c, p.ContextOf(there), ciphertext, p.keys);
      SameOutputs(p.c, p.ContextOf(here), p.ContextOf(there), ciphertext, p.keys);
      AadEndsWithRecord(ciphertext[..HEADER_LEN + NONCE_LEN], p.sealId, here);
      AadEndsWithRecord(ciphertext[..HEADER_LEN + NONCE_LEN], p.sealId, there);
    }
  }

  /** Attempts on one envelope take the same ciphertext and tag from it. */
  lemma SameOutputs(c: Primitives, here: Context, there: Context, envelope: Bytes, reader: Ring)
    requires Attempt(c, here, envelope, reader).Some? && Attempt(c, there, envelope, reader).Some?
    ensures Attempt(c, here, envelope, reader).value.output == Attempt(c, there, envelope, reader).value.output
  {
  }

  /** A legacy row that a writer moves between a sweep's load and its update: a valid
      planner, the row, and the record ID it moves to, at which the rewrite does not open
      and the legacy bytes would have read. */
  lemma MovedLegacyRow() returns (p: Planner<Id, Bytes>, row: StoredRow<Id>, there: Id)
    ensures Valid(p)
    ensures var planned, found := PlanRow(p, row, Ok(Zeros(24))), StoredRow(there, row.ciphertext, row.indexes);
            && planned.Ok? && planned.value.Rewrite?
            && ReadPermissive(p, row) == Ok([]) && ReadPermissive(p, found) == Ok([])
            && ReadPermissive(p, Written(found, planned.value.write)) == Err(AuthenticationFailed)
  {
    var key := Key(Zeros(16), []);
    var entropy: Entropy := Ok(Zeros(24));
    CheckingIsLawful();
    p := Planner(Checking(), Ring(key, [key]), Zeros(16), NoPadding, value => Ok(value), bytes => Ok(bytes),
                 id => Some(Uuid(id)), None, []);
    row, there := StoredRow(Zeros(16), [], []), Zeros(15) + [1];
    assert there[15] == 1 && row.columns[15] == 0;
    NotCiphertextExactly([]);
    SealSucceedsExactly(p.c, p.ContextOf(row.columns), NoPadding, [], p.keys, entropy);
    CheckingBindsUuids(p, PlanRow(p, row, entropy).value.write.ciphertext, row.columns, there);
    LegacyIsLost(p, row, entropy, there);
  }

  /** A worker loads a row, a writer moves it, and the worker's rewrite lands on it. */
  function MoveUnderSweep<R>(row: StoredRow<R>, there: R, entropy: Entropy): seq<Event<R>> {
    [Start(0), Load(0), Write(0, StoredRow(there, row.ciphertext, row.indexes)), Process(0, entropy)]
  }

  /** A run that loses a value: at its end the row, which a reader would have read had only
      the other writer run, fails authentication. */
  lemma MovedLegacyRowIsLost() returns (p: Planner<Id, Bytes>, row: StoredRow<Id>, there: Id)
    ensures Valid(p)
    ensures var events, rules := MoveUnderSweep(row, there, Ok(Zeros(24))), Rules(p);
            && Values(rules, Execute(rules, 1, Initial(map[0 := row]), events).table)
               == map[0 := Err(AuthenticationFailed)]
            && ForeignOnly(rules, Values(rules, map[0 := row]), events) == map[0 := Ok([])]
  {
    p, row, there := MovedLegacyRow();
    MoveReads(Rules(p), row, there, Ok(Zeros(24)), Ok([]), Err(AuthenticationFailed));
  }

  lemma {:induction false} MoveReads<R, V>(
    rules: RowRules<R, V>, row: StoredRow<R>, there: R, entropy: Entropy, alone: Result<V>, swept: Result<V>)
    requires Rewrites(rules, row, entropy)
    requires rules.read(StoredRow(there, row.ciphertext, row.indexes)) == alone
    requires rules.read(Written(StoredRow(there, row.ciphertext, row.indexes), rules.plan(row, entropy).value.write))
             == swept
    ensures var events := MoveUnderSweep(row, there, entropy);
            && Values(rules, Execute(rules, 1, Initial(map[0 := row]), events).table) == map[0 := swept]
            && ForeignOnly(rules, Values(rules, map[0 := row]), events) == map[0 := alone]
  {
    MoveIsOverwritten(rules, row, there, entropy);
    MoveAlone(rules, row, there, entropy);
  }

  lemma {:induction false} MoveIsOverwritten<R, V>(rules: RowRules<R, V>, row: StoredRow<R>, there: R, entropy: Entropy)
    requires Rewrites(rules, row, entropy)
    ensures var found := StoredRow(there, row.ciphertext, row.indexes);
            Execute(rules, 1, Initial(map[0 := row]), MoveUnderSweep(row, there, entropy)).table
              == map[0 := Written(found, rules.plan(row, entropy).value.write)]
  {
    var found := StoredRow(there, row.ciphertext, row.indexes);
    var events := MoveUnderSweep(row, there, entropy);
    assert events == [Start(0), Load(0), Write(0, found)] + [Process(0, entropy)];
    var moved := Execute(rules, 1, Initial(map[0 := row]), events[..3]);
    RowIsLoaded(rules, row);
    assert events[..3] == [Start(0), Load(0)] + [Write(0, found)];
    ExecuteOne(rules, 1, Initial(map[0 := row]), [Start(0), Load(0)], Write(0, found));
    ExecuteOne(rules, 1, Initial(map[0 := row]), events[..3], Process(0, entropy));
    RewriteLands(rules, moved, row, found, entropy);
  }

  lemma {:induction false} RowIsLoaded<R, V>(rules: RowRules<R, V>, row: StoredRow<R>)
    ensures var events: seq<Event<R>> := [Start(0), Load(0)];
            var s := Execute(rules, 1, Initial(map[0 := row]), events);
            s.table == map[0 := row] && s.Of(0) == Processing(None, [SweepRow(0, row)], 0, NO_ROWS, 1)
  {
    var none: seq<Event<R>>, started: seq<Event<R>> := [], [Start(0)];
    assert none + [Start(0)] == started && started + [Load(0)] == [Start(0), Load(0)];
    ExecuteOne(rules, 1, Initial(map[0 := row]), none, Start(0));
    ExecuteOne(rules, 1, Initial(map[0 := row]), started, Load(0));
    OnlyRowIsLoaded(row);
  }

  lemma OnlyRowIsLoaded<R>(row: StoredRow<R>)
    ensures LoadBatch(map[0 := row], None, 1) == [SweepRow(0, row)]
  {
    var table: Table<R> := map[0 := row];
    assert 0 in table && After(None, 0);
    assert NextCursor(table, None) == Some(0);
    assert LoadBatch(map[0 := row], Some(0), 0) == [];
  }

  lemma RewriteLands<R, V>(
    rules: RowRules<R, V>, s: State<R>, row: StoredRow<R>, found: StoredRow<R>, entropy: Entropy)
    requires Rewrites(rules, row, entropy)
    requires found.ciphertext == row.ciphertext && found.indexes == row.indexes
    requires s.table == map[0 := found] && s.Of(0) == Processing(None, [SweepRow(0, row)], 0, NO_ROWS, 1)
    ensures Step(rules, 1, s, Process(0, entropy)).table
         == map[0 := Written(found, rules.plan(row, entropy).value.write)]
  {
  }

  lemma {:induction false} MoveAlone<R, V>(rules: RowRules<R, V>, row: StoredRow<R>, there: R, entropy: Entropy)
    ensures ForeignOnly(rules, Values(rules, map[0 := row]), MoveUnderSweep(row, there, entropy))
         == map[0 := rules.read(StoredRow(there, row.ciphertext, row.indexes))]
  {
    var events := MoveUnderSweep(row, there, entropy);
    var values := Values(rules, map[0 := row]);
    var started: seq<Event<R>>, loaded: seq<Event<R>> := [Start(0)], [Start(0), Load(0)];
    assert started[..0] == [] && loaded[..1] == started && events[..3][..2] == loaded;
    assert ForeignOnly(rules, values, started) == values;
    assert ForeignOnly(rules, values, loaded) == values;
    assert events[..3][2] == events[2];
  }
}
