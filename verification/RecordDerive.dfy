/** What `#[derive(Record)]` checks of a field list (derive/src/record.rs). */
module RecordChecks {
  import opened Bytes
  import opened Schema

  datatype IndexDecl = IndexDecl(id: Id)

  datatype Role = RecordId | Sealed(sealId: Id, indexes: seq<IndexDecl>) | Plaintext

  /** A field, named as in the struct; `optional` for an `Option<T>`. */
  datatype Field = Field(name: string, optional: bool, role: Role) {
    /** The column each of its blind indexes is stored in. */
    function Column(): string {
      name + "_index"
    }

    function Indexes(): seq<IndexDecl> {
      if role.Sealed? then role.indexes else []
    }
  }

  datatype Problem =
    | NoRecordId
    | SecondRecordId(name: string)
    | NothingSealed
    | OptionalRecordId(name: string)
    | RepeatedSealId(first: string)
    | RepeatedIndexId(first: string)
    | ColumnTaken(column: string)

  // ----- The lists the checks go through -----

  function RecordIds(fields: seq<Field>): seq<Field> {
    if fields == [] then [] else
    var before, last := RecordIds(fields[..|fields| - 1]), fields[|fields| - 1];
    if last.role.RecordId? then before + [last] else before
  }

  function SealIds(fields: seq<Field>): seq<(Id, string)> {
    if fields == [] then [] else
    var before, last := SealIds(fields[..|fields| - 1]), fields[|fields| - 1];
    if last.role.Sealed? then before + [(last.role.sealId, last.name)] else before
  }

  function Named(indexes: seq<IndexDecl>, name: string): seq<(Id, string)> {
    seq(|indexes|, i requires 0 <= i < |indexes| => (indexes[i].id, name))
  }

  function IndexIds(fields: seq<Field>): seq<(Id, string)> {
    if fields == [] then [] else
    var before, last := IndexIds(fields[..|fields| - 1]), fields[|fields| - 1];
    before + Named(last.Indexes(), last.name)
  }

  function Repeated(column: string, times: nat): seq<string> {
    seq(times, _ => column)
  }

  function IndexColumns(fields: seq<Field>): seq<string> {
    if fields == [] then [] else
    var before, last := IndexColumns(fields[..|fields| - 1]), fields[|fields| - 1];
    before + Repeated(last.Column(), |last.Indexes()|)
  }

  function Names(fields: seq<Field>): seq<string> {
    seq(|fields|, i requires 0 <= i < |fields| => fields[i].name)
  }

  /** The columns of the stored form. */
  function Columns(fields: seq<Field>): seq<string> {
    Names(fields) + IndexColumns(fields)
  }

  // ----- Repeated IDs -----

  /** Which earlier field first declared the ID of each repeating entry. */
  function Repetitions(ids: seq<(Id, string)>): seq<string> {
    if ids == [] then [] else
    var before, last := ids[..|ids| - 1], ids[|ids| - 1];
    var first := FirstWith(before, last.0);
    if first == |before| then Repetitions(before) else Repetitions(before) + [before[first].1]
  }

  function FirstWith(ids: seq<(Id, string)>, id: Id): (first: nat)
    ensures first <= |ids|
    ensures first < |ids| ==> ids[first].0 == id
    ensures forall i :: 0 <= i < first ==> ids[i].0 != id
  {
    if ids == [] || ids[0].0 == id then 0 else 1 + FirstWith(ids[1..], id)
  }

  lemma {:induction false} RepetitionsExactly(ids: seq<(Id, string)>)
    ensures Repetitions(ids) == [] <==> !Repeats(IdsOf(ids))
    decreases |ids|
  {
    if ids != [] {
      var before, last := ids[..|ids| - 1], ids[|ids| - 1];
      RepetitionsExactly(before);
      var first := FirstWith(before, last.0);
      assert IdsOf(ids) == IdsOf(before) + [last.0];
      if Repeats(IdsOf(before)) {
        var i, j :| 0 <= i < j < |before| && IdsOf(before)[i] == IdsOf(before)[j];
        assert IdsOf(ids)[i] == IdsOf(ids)[j];
      }
      if first < |before| {
        assert IdsOf(ids)[first] == IdsOf(ids)[|before|];
      }
      if i, j :| 0 <= i < j < |ids| && IdsOf(ids)[i] == IdsOf(ids)[j] {
        assert j < |before| ==> IdsOf(before)[i] == IdsOf(before)[j];
        assert j == |before| ==> before[i].0 == last.0;
      }
    }
  }

  /** For every entry whose ID was seen before, the field of its first declaration. The
      loop remembers first declarations only. */
  method CheckDistinct(ids: seq<(Id, string)>) returns (firsts: seq<string>)
    ensures firsts == Repetitions(ids)
  {
    firsts := [];
    var seen: seq<(Id, string)> := [];
    var i := 0;
    while i < |ids|
      invariant 0 <= i <= |ids|
      invariant firsts == Repetitions(ids[..i])
      invariant Remembers(seen, ids[..i])
    {
      var (id, field) := ids[i];
      assert ids[..i + 1][..i] == ids[..i];
      RemembersFirst(seen, ids[..i], id);
      var at := FirstWith(seen, id);
      if at < |seen| {
        firsts := firsts + [seen[at].1];
        RemembersMore(seen, ids[..i], ids[i]);
      } else {
        RemembersNew(seen, ids[..i], ids[i]);
        seen := seen + [(id, field)];
      }
      assert ids[..i] + [ids[i]] == ids[..i + 1];
      i := i + 1;
    }
    assert ids[..i] == ids;
  }

  /** `seen` finds the same first declaration of every ID as the whole list. */
  ghost predicate Remembers(seen: seq<(Id, string)>, ids: seq<(Id, string)>) {
    forall id :: SameFirst(seen, ids, id)
  }

  ghost predicate SameFirst(seen: seq<(Id, string)>, ids: seq<(Id, string)>, id: Id) {
    var s, i := FirstWith(seen, id), FirstWith(ids, id);
    (s < |seen| <==> i < |ids|) && (s < |seen| ==> seen[s] == ids[i])
  }

  lemma RemembersFirst(seen: seq<(Id, string)>, ids: seq<(Id, string)>, id: Id)
    requires Remembers(seen, ids)
    ensures SameFirst(seen, ids, id)
  {
  }

  lemma {:induction false} FirstWithAppend(ids: seq<(Id, string)>, last: (Id, string), id: Id)
    ensures var first := FirstWith(ids, id);
            FirstWith(ids + [last], id)
              == if first < |ids| then first else if last.0 == id then |ids| else |ids| + 1
    decreases |ids|
  {
    if ids != [] && ids[0].0 != id {
      FirstWithAppend(ids[1..], last, id);
      assert (ids + [last])[1..] == ids[1..] + [last];
    }
  }

  lemma {:induction false} RemembersMore(seen: seq<(Id, string)>, ids: seq<(Id, string)>, last: (Id, string))
    requires Remembers(seen, ids) && FirstWith(seen, last.0) < |seen|
    ensures Remembers(seen, ids + [last])
  {
    forall id
      ensures SameFirst(seen, ids + [last], id)
    {
      assert SameFirst(seen, ids, id) && SameFirst(seen, ids, last.0);
      FirstWithAppend(ids, last, id);
    }
  }

  lemma {:induction false} RemembersNew(seen: seq<(Id, string)>, ids: seq<(Id, string)>, last: (Id, string))
    requires Remembers(seen, ids) && FirstWith(seen, last.0) == |seen|
    ensures Remembers(seen + [last], ids + [last])
  {
    forall id
      ensures SameFirst(seen + [last], ids + [last], id)
    {
      assert SameFirst(seen, ids, id);
      FirstWithAppend(ids, last, id);
      FirstWithAppend(seen, last, id);
    }
  }

  // ----- The whole record -----

  /** What a record must be: one record ID, which is not optional; some sealed field; no
      seal ID or index ID twice; and no index column that is taken. */
  ghost predicate WellFormed(fields: seq<Field>) {
    && |RecordIds(fields)| == 1
    && !RecordIds(fields)[0].optional
    && SealIds(fields) != []
    && !Repeats(IdsOf(SealIds(fields)))
    && !Repeats(IdsOf(IndexIds(fields)))
    && NoneTaken(Names(fields), IndexColumns(fields))
  }

  /** No column equals a field's name or an earlier index column. */
  ghost predicate NoneTaken(names: seq<string>, columns: seq<string>) {
    forall i :: 0 <= i < |columns| ==> columns[i] !in names && columns[i] !in columns[..i]
  }

  function Taken(names: seq<string>, columns: seq<string>): seq<Problem> {
    if columns == [] then [] else
    var before, last := columns[..|columns| - 1], columns[|columns| - 1];
    Taken(names, before) + if last in names + before then [ColumnTaken(last)] else []
  }

  lemma {:induction false} TakenExactly(names: seq<string>, columns: seq<string>)
    ensures Taken(names, columns) == [] <==> NoneTaken(names, columns)
    decreases |columns|
  {
    if columns != [] {
      var before := columns[..|columns| - 1];
      TakenExactly(names, before);
      forall i | 0 <= i < |before|
        ensures before[i] == columns[i] && before[..i] == columns[..i]
      {
      }
    }
  }

  lemma {:induction false} TakenStep(names: seq<string>, before: seq<string>, column: string, times: nat)
    ensures before + Repeated(column, times + 1) == before + Repeated(column, times) + [column]
    ensures Taken(names, before + Repeated(column, times + 1))
         == Taken(names, before + Repeated(column, times))
            + if column in names + (before + Repeated(column, times)) then [ColumnTaken(column)] else []
  {
    var taken := before + Repeated(column, times);
    assert before + Repeated(column, times + 1) == taken + [column];
    assert (taken + [column])[..|taken|] == taken;
  }

  /** Claims a field's index columns; all of them have its one name. */
  method ClaimColumns(
    column: string, times: nat, taken: seq<string>, found: seq<Problem>,
    ghost names: seq<string>, ghost before: seq<string>)
    returns (columns: seq<string>, problems: seq<Problem>)
    requires taken == names + before && found == Taken(names, before)
    ensures columns == names + (before + Repeated(column, times))
    ensures problems == Taken(names, before + Repeated(column, times))
  {
    columns, problems := taken, found;
    assert before + Repeated(column, 0) == before;
    for j := 0 to times
      invariant columns == names + (before + Repeated(column, j))
      invariant problems == Taken(names, before + Repeated(column, j))
    {
      TakenStep(names, before, column, j);
      if column in columns {
        problems := problems + [ColumnTaken(column)];
      }
      columns := columns + [column];
    }
  }

  method CheckColumns(fields: seq<Field>) returns (problems: seq<Problem>)
    ensures problems == Taken(Names(fields), IndexColumns(fields))
  {
    problems := [];
    var columns := Names(fields);
    var i := 0;
    while i < |fields|
      invariant 0 <= i <= |fields|
      invariant columns == Names(fields) + IndexColumns(fields[..i])
      invariant problems == Taken(Names(fields), IndexColumns(fields[..i]))
    {
      columns, problems := ClaimColumns(fields[i].Column(), |fields[i].Indexes()|, columns, problems,
                                        Names(fields), IndexColumns(fields[..i]));
      assert fields[..i + 1][..i] == fields[..i];
      i := i + 1;
    }
    assert fields[..i] == fields;
  }

  method SelectRecordIds(fields: seq<Field>) returns (ids: seq<Field>)
    ensures ids == RecordIds(fields)
  {
    ids := [];
    var i := 0;
    while i < |fields|
      invariant 0 <= i <= |fields|
      invariant ids == RecordIds(fields[..i])
    {
      assert fields[..i + 1][..i] == fields[..i];
      if fields[i].role.RecordId? {
        ids := ids + [fields[i]];
      }
      i := i + 1;
    }
    assert fields[..i] == fields;
  }

  function OptionalIds(ids: seq<Field>): seq<Problem> {
    if ids == [] then [] else
    OptionalIds(ids[..|ids| - 1])
    + if ids[|ids| - 1].optional then [OptionalRecordId(ids[|ids| - 1].name)] else []
  }

  function Reported(firsts: seq<string>, problem: string -> Problem): seq<Problem> {
    seq(|firsts|, i requires 0 <= i < |firsts| => problem(firsts[i]))
  }

  /** All checks on a field list together; they pass exactly the well-formed ones. */
  method CheckRecord(fields: seq<Field>) returns (problems: seq<Problem>)
    ensures problems == [] <==> WellFormed(fields)
  {
    var ids := SelectRecordIds(fields);
    problems := if |ids| == 0 then [NoRecordId] else if |ids| == 1 then [] else [SecondRecordId(ids[1].name)];
    if SealIds(fields) == [] {
      problems := problems + [NothingSealed];
    }
    problems := problems + OptionalIds(ids);
    var seals := CheckDistinct(SealIds(fields));
    problems := problems + Reported(seals, first => RepeatedSealId(first));
    var indexes := CheckDistinct(IndexIds(fields));
    problems := problems + Reported(indexes, first => RepeatedIndexId(first));
    var columns := CheckColumns(fields);
    problems := problems + columns;
    RepetitionsExactly(SealIds(fields));
    RepetitionsExactly(IndexIds(fields));
    TakenExactly(Names(fields), IndexColumns(fields));
    if |ids| == 1 {
      assert ids[..0] == [];
      assert OptionalIds(ids) == if ids[0].optional then [OptionalRecordId(ids[0].name)] else [];
    }
  }

  // ----- What an accepted record guarantees -----

  /** Rust gives a struct's fields distinct names; then all columns of the stored form of
      an accepted record are pairwise distinct. */
  lemma ColumnsAreDistinct(fields: seq<Field>)
    requires WellFormed(fields) && !Repeats(Names(fields))
    ensures !Repeats(Columns(fields))
  {
    var names, indexes, columns := Names(fields), IndexColumns(fields), Columns(fields);
    forall i, j | 0 <= i < j < |columns|
      ensures columns[i] != columns[j]
    {
      if j >= |names| {
        assert columns[j] == indexes[j - |names|];
        if i >= |names| {
          assert columns[i] == indexes[..j - |names|][i - |names|];
        }
      }
    }
  }

  lemma {:induction false} SealIdsInclude(fields: seq<Field>, i: nat) returns (k: nat)
    requires i < |fields| && fields[i].role.Sealed?
    ensures k < |SealIds(fields)| && SealIds(fields)[k] == (fields[i].role.sealId, fields[i].name)
    ensures |SealIds(fields[..i])| == k
    decreases |fields|
  {
    if i == |fields| - 1 {
      k := |SealIds(fields)| - 1;
    } else {
      k := SealIdsInclude(fields[..|fields| - 1], i);
      assert fields[..|fields| - 1][..i] == fields[..i];
    }
  }

  lemma {:induction false} SealIdsGrow(fields: seq<Field>, i: nat)
    requires i <= |fields|
    ensures |SealIds(fields[..i])| <= |SealIds(fields)|
    decreases |fields|
  {
    if i < |fields| {
      SealIdsGrow(fields[..|fields| - 1], i);
      assert fields[..|fields| - 1][..i] == fields[..i];
    } else {
      assert fields[..i] == fields;
    }
  }

  /** Two sealed fields of an accepted record have different seal IDs. */
  lemma SealedFieldsDiffer(fields: seq<Field>, i: nat, j: nat)
    requires WellFormed(fields)
    requires i < j < |fields| && fields[i].role.Sealed? && fields[j].role.Sealed?
    ensures fields[i].role.sealId != fields[j].role.sealId
  {
    var k := SealIdsInclude(fields, i);
    var l := SealIdsInclude(fields, j);
    var upToI := fields[..i + 1];
    assert fields[..j][..i + 1] == upToI && upToI[..i] == fields[..i];
    SealIdsGrow(fields[..j], i + 1);
    assert k < l;
    assert IdsOf(SealIds(fields))[k] == fields[i].role.sealId && IdsOf(SealIds(fields))[l] == fields[j].role.sealId;
  }
}
