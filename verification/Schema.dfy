/** Finding IDs declared twice (src/schema.rs): the manifest's grouping of markers by ID
    at run time, and the pairwise comparison of IDs at compile time. */
module Schema {
  import opened Bytes
  import opened SealContexts
  import opened Wrappers

  datatype Group<+I, +N> = Group(id: I, markers: seq<N>)

  /** The values of `s` in order of first appearance. */
  function Distinct<T(==)>(s: seq<T>): seq<T> {
    if s == [] then [] else
    var before := Distinct(s[..|s| - 1]);
    if s[|s| - 1] in before then before else before + [s[|s| - 1]]
  }

  function IdsOf<I, N>(entries: seq<(I, N)>): seq<I> {
    seq(|entries|, i requires 0 <= i < |entries| => entries[i].0)
  }

  /** The markers that declare `id`, in registration order. */
  function MarkersOf<I(==), N>(entries: seq<(I, N)>, id: I): seq<N> {
    if entries == [] then [] else
    var before := MarkersOf(entries[..|entries| - 1], id);
    var last := entries[|entries| - 1];
    if last.0 == id then before + [last.1] else before
  }

  function Groups<I(==), N>(entries: seq<(I, N)>): seq<Group<I, N>> {
    var ids := Distinct(IdsOf(entries));
    seq(|ids|, i requires 0 <= i < |ids| => Group(ids[i], MarkersOf(entries, ids[i])))
  }

  /** The groups whose markers are reduced to distinct ones. */
  function DistinctGroups<I(==), N(==)>(entries: seq<(I, N)>): seq<Group<I, N>> {
    var ids := Distinct(IdsOf(entries));
    seq(|ids|, i requires 0 <= i < |ids| => Group(ids[i], Distinct(MarkersOf(entries, ids[i]))))
  }

  function Shared<I, N>(groups: seq<Group<I, N>>): seq<Group<I, N>> {
    if groups == [] then [] else
    var before := Shared(groups[..|groups| - 1]);
    var last := groups[|groups| - 1];
    if |last.markers| > 1 then before + [last] else before
  }

  // ----- The reference definitions mean what they say -----

  lemma {:induction false} DistinctExactly<T>(s: seq<T>)
    ensures forall x :: x in Distinct(s) <==> x in s
    ensures forall i, j :: 0 <= i < j < |Distinct(s)| ==> Distinct(s)[i] != Distinct(s)[j]
    decreases |s|
  {
    if s != [] {
      DistinctExactly(s[..|s| - 1]);
      assert s == s[..|s| - 1] + [s[|s| - 1]];
    }
  }

  /** Where a value of `s` first appears. */
  function FirstAt<T(==)>(s: seq<T>, x: T): (i: nat)
    requires x in s
    ensures i < |s| && s[i] == x && x !in s[..i]
  {
    if s[0] == x then 0 else 1 + FirstAt(s[1..], x)
  }

  lemma {:induction false} FirstAtUnique<T>(s: seq<T>, x: T, i: nat)
    requires i < |s| && s[i] == x && x !in s[..i]
    ensures FirstAt(s, x) == i
  {
    var before, upTo := s[..i], s[..FirstAt(s, x)];
    assert forall j :: 0 <= j < |before| ==> s[j] == before[j];
    assert forall j :: 0 <= j < |upTo| ==> s[j] == upTo[j];
  }

  lemma {:induction false} DistinctMember<T>(s: seq<T>, x: T)
    ensures x in Distinct(s) <==> x in s
  {
    DistinctExactly(s);
  }

  lemma {:induction false} FirstInPrefix<T>(s: seq<T>, x: T)
    requires s != [] && x in s[..|s| - 1]
    ensures x in s && FirstAt(s, x) == FirstAt(s[..|s| - 1], x)
  {
    var first := FirstAt(s[..|s| - 1], x);
    assert s[..first] == s[..|s| - 1][..first];
    FirstAtUnique(s, x, first);
  }

  /** Distinct values come in the order of their first appearance. */
  lemma {:induction false} DistinctInOrder<T>(s: seq<T>, i: nat, j: nat)
    requires i < j < |Distinct(s)|
    ensures Distinct(s)[i] in s && Distinct(s)[j] in s
    ensures FirstAt(s, Distinct(s)[i]) < FirstAt(s, Distinct(s)[j])
    decreases |s|
  {
    var before, last := s[..|s| - 1], s[|s| - 1];
    var x, y := Distinct(s)[i], Distinct(s)[j];
    assert x == Distinct(before)[i];
    DistinctMember(before, x);
    FirstInPrefix(s, x);
    if j < |Distinct(before)| {
      DistinctInOrder(before, i, j);
      DistinctMember(before, y);
      FirstInPrefix(s, y);
    } else {
      DistinctMember(before, y);
      FirstAtUnique(s, y, |s| - 1);
    }
  }

  /** How often `id` is declared. */
  function CountOf<I(==)>(ids: seq<I>, id: I): nat {
    if ids == [] then 0
    else CountOf(ids[..|ids| - 1], id) + if ids[|ids| - 1] == id then 1 else 0
  }

  lemma {:induction false} MarkersCount<I, N>(entries: seq<(I, N)>, id: I)
    ensures |MarkersOf(entries, id)| == CountOf(IdsOf(entries), id)
    decreases |entries|
  {
    if entries != [] {
      MarkersCount(entries[..|entries| - 1], id);
      assert IdsOf(entries)[..|entries| - 1] == IdsOf(entries[..|entries| - 1]);
    }
  }

  lemma {:induction false} CountsPresence<I>(ids: seq<I>, id: I)
    ensures CountOf(ids, id) > 0 <==> id in ids
    decreases |ids|
  {
    if ids != [] {
      CountsPresence(ids[..|ids| - 1], id);
      assert ids == ids[..|ids| - 1] + [ids[|ids| - 1]];
    }
  }

  ghost predicate Repeats<I>(ids: seq<I>) {
    exists i, j :: 0 <= i < j < |ids| && ids[i] == ids[j]
  }

  ghost predicate RepeatsId<I>(ids: seq<I>, id: I) {
    exists i, j :: 0 <= i < j < |ids| && ids[i] == ids[j] == id
  }

  lemma {:induction false} CountsRepeats<I>(ids: seq<I>, id: I)
    ensures CountOf(ids, id) > 1 <==> RepeatsId(ids, id)
    decreases |ids|
  {
    if ids != [] {
      var before, last := ids[..|ids| - 1], |ids| - 1;
      CountsRepeats(before, id);
      CountsPresence(before, id);
      if RepeatsId(before, id) {
        var i, j :| 0 <= i < j < |before| && before[i] == before[j] == id;
        assert ids[i] == ids[j] == id;
      }
      if ids[last] == id && id in before {
        var i :| 0 <= i < |before| && before[i] == id;
        assert ids[i] == ids[last] == id;
      }
      if RepeatsId(ids, id) {
        var i, j :| 0 <= i < j < |ids| && ids[i] == ids[j] == id;
        assert before[i] == id;
        assert j < last ==> before[j] == id;
      }
    }
  }

  lemma {:induction false} SharedExactly<I, N>(groups: seq<Group<I, N>>, group: Group<I, N>)
    ensures group in Shared(groups) <==> group in groups && |group.markers| > 1
    decreases |groups|
  {
    if groups != [] {
      SharedExactly(groups[..|groups| - 1], group);
      assert groups == groups[..|groups| - 1] + [groups[|groups| - 1]];
    }
  }

  /** An ID is reported exactly when two entries declare it, with exactly the markers
      that do, in registration order. */
  lemma {:induction false} ReportedExactly<I, N>(entries: seq<(I, N)>, group: Group<I, N>)
    ensures group in Shared(Groups(entries))
       <==> group.markers == MarkersOf(entries, group.id) && RepeatsId(IdsOf(entries), group.id)
  {
    var ids := Distinct(IdsOf(entries));
    SharedExactly(Groups(entries), group);
    DistinctExactly(IdsOf(entries));
    MarkersCount(entries, group.id);
    CountsRepeats(IdsOf(entries), group.id);
    CountsPresence(IdsOf(entries), group.id);
    if group.markers == MarkersOf(entries, group.id) && RepeatsId(IdsOf(entries), group.id) {
      var i :| 0 <= i < |ids| && ids[i] == group.id;
      assert Groups(entries)[i] == group;
    }
  }

  /** The two checks agree: the report is empty exactly when the compile-time check finds
      no repeated ID. */
  lemma ReportIsEmptyExactly<I, N>(entries: seq<(I, N)>)
    ensures Shared(Groups(entries)) == [] <==> !Repeats(IdsOf(entries))
  {
    var ids := IdsOf(entries);
    if Repeats(ids) {
      var i, j :| 0 <= i < j < |ids| && ids[i] == ids[j];
      assert RepeatsId(ids, ids[i]);
      ReportedExactly(entries, Group(ids[i], MarkersOf(entries, ids[i])));
    }
    if Shared(Groups(entries)) != [] {
      ReportedExactly(entries, Shared(Groups(entries))[0]);
    }
  }

  function Sizes<I, N>(groups: seq<Group<I, N>>): nat {
    if groups == [] then 0 else Sizes(groups[..|groups| - 1]) + |groups[|groups| - 1].markers|
  }

  /** Grouping loses no entry and repeats none: the group sizes sum to the entries. */
  lemma {:induction false} GroupsPartition<I, N>(entries: seq<(I, N)>)
    ensures Sizes(Groups(entries)) == |entries|
    decreases |entries|
  {
    if entries != [] {
      var before, last := entries[..|entries| - 1], entries[|entries| - 1];
      GroupsPartition(before);
      GroupsStep(before, last);
      assert before + [last] == entries;
      var groups := Groups(before);
      DistinctExactly(IdsOf(before));
      if j :| 0 <= j < |groups| && groups[j].id == last.0 {
        SizesUpdate(groups, j, groups[j].(markers := groups[j].markers + [last.1]));
      } else {
        assert (groups + [Group(last.0, [last.1])])[..|groups|] == groups;
      }
    }
  }

  lemma {:induction false} SizesUpdate<I, N>(groups: seq<Group<I, N>>, j: nat, group: Group<I, N>)
    requires j < |groups|
    ensures Sizes(groups[j := group]) + |groups[j].markers| == Sizes(groups) + |group.markers|
    decreases |groups|
  {
    var n := |groups| - 1;
    if j < n {
      SizesUpdate(groups[..n], j, group);
      assert groups[j := group][..n] == groups[..n][j := group];
    } else {
      assert groups[j := group][..n] == groups[..n];
    }
  }

  // ----- One more entry -----

  /** One more entry joins the group of its ID, or opens one at the end. */
  lemma GroupsStep<I, N>(entries: seq<(I, N)>, last: (I, N))
    ensures var groups, next := Groups(entries), Groups(entries + [last]);
            && (forall j :: 0 <= j < |groups| && groups[j].id == last.0 ==>
                  next == groups[j := Group(last.0, groups[j].markers + [last.1])])
            && ((forall j :: 0 <= j < |groups| ==> groups[j].id != last.0) ==>
                  next == groups + [Group(last.0, [last.1])])
  {
    var ids := Distinct(IdsOf(entries));
    if forall j :: 0 <= j < |ids| ==> Groups(entries)[j].id != last.0 {
      assert forall j :: 0 <= j < |ids| ==> Groups(entries)[j].id == ids[j];
      GroupOpens(entries, last);
    } else {
      var j :| 0 <= j < |ids| && Groups(entries)[j].id == last.0;
      GroupGrows(entries, last, j);
    }
  }

  lemma GroupOpens<I, N>(entries: seq<(I, N)>, last: (I, N))
    requires last.0 !in Distinct(IdsOf(entries))
    ensures Groups(entries + [last]) == Groups(entries) + [Group(last.0, [last.1])]
  {
    var ids := Distinct(IdsOf(entries));
    IdsStep(entries, last);
    DistinctExactly(IdsOf(entries));
    MarkersStep(entries, last);
    NoMarkers(entries, last.0);
    assert Groups(entries + [last])[|ids|] == Group(last.0, [last.1]);
  }

  /** IDs are distinct, so no other group has the entry's ID. */
  lemma GroupGrows<I, N>(entries: seq<(I, N)>, last: (I, N), j: nat)
    requires j < |Groups(entries)| && Groups(entries)[j].id == last.0
    ensures Groups(entries + [last]) == Groups(entries)[j := Group(last.0, Groups(entries)[j].markers + [last.1])]
    ensures forall i :: 0 <= i < |Groups(entries)| && Groups(entries)[i].id == last.0 ==> i == j
  {
    var ids := Distinct(IdsOf(entries));
    assert ids[j] == last.0;
    IdsStep(entries, last);
    DistinctExactly(IdsOf(entries));
    MarkersStep(entries, last);
  }

  lemma IdsStep<I, N>(entries: seq<(I, N)>, last: (I, N))
    ensures var ids := Distinct(IdsOf(entries));
            Distinct(IdsOf(entries + [last])) == if last.0 in ids then ids else ids + [last.0]
  {
    assert IdsOf(entries + [last])[..|entries|] == IdsOf(entries);
  }

  lemma {:induction false} MarkersStep<I, N>(entries: seq<(I, N)>, last: (I, N))
    ensures forall id :: MarkersOf(entries + [last], id)
                      == if id == last.0 then MarkersOf(entries, id) + [last.1] else MarkersOf(entries, id)
  {
    assert (entries + [last])[..|entries|] == entries;
  }

  lemma {:induction false} NoMarkers<I, N>(entries: seq<(I, N)>, id: I)
    requires id !in Distinct(IdsOf(entries))
    ensures MarkersOf(entries, id) == []
  {
    DistinctExactly(IdsOf(entries));
    MarkersCount(entries, id);
    CountsPresence(IdsOf(entries), id);
  }

  // ----- The loops -----

  method FindGroup<I(==), N>(groups: seq<Group<I, N>>, id: I) returns (at: nat)
    ensures at <= |groups|
    ensures at < |groups| ==> groups[at].id == id
    ensures forall j :: 0 <= j < at ==> groups[j].id != id
  {
    at := 0;
    while at < |groups| && groups[at].id != id
      invariant at <= |groups|
      invariant forall j :: 0 <= j < at ==> groups[j].id != id
    {
      at := at + 1;
    }
  }

  method KeepShared<I, N>(groups: seq<Group<I, N>>) returns (r: seq<Group<I, N>>)
    ensures r == Shared(groups)
  {
    r := [];
    var i := 0;
    while i < |groups|
      invariant 0 <= i <= |groups|
      invariant r == Shared(groups[..i])
    {
      assert groups[..i + 1][..i] == groups[..i];
      if |groups[i].markers| > 1 {
        r := r + [groups[i]];
      }
      i := i + 1;
    }
    assert groups[..i] == groups;
  }

  /** Collects the markers of every ID, then drops the IDs that only one marker has. */
  method SharedIds<I(==), N>(entries: seq<(I, N)>) returns (r: seq<Group<I, N>>)
    ensures r == Shared(Groups(entries))
  {
    var groups: seq<Group<I, N>> := [];
    var i := 0;
    while i < |entries|
      invariant 0 <= i <= |entries|
      invariant groups == Groups(entries[..i])
    {
      var (id, marker) := entries[i];
      assert entries[..i] + [entries[i]] == entries[..i + 1];
      GroupsStep(entries[..i], entries[i]);
      var at := FindGroup(groups, id);
      if at < |groups| {
        groups := groups[at := Group(id, groups[at].markers + [marker])];
      } else {
        groups := groups + [Group(id, [marker])];
      }
      i := i + 1;
    }
    assert entries[..i] == entries;
    r := KeepShared(groups);
  }

  /** One more context of a known seal ID adds its kind, unless it is known too. */
  lemma KnownContext<I, N>(entries: seq<(I, N)>, last: (I, N), j: nat)
    requires j < |DistinctGroups(entries)| && DistinctGroups(entries)[j].id == last.0
    ensures var groups, next := DistinctGroups(entries), DistinctGroups(entries + [last]);
            next == if last.1 in groups[j].markers then groups
                    else groups[j := Group(last.0, groups[j].markers + [last.1])]
  {
    var ids := Distinct(IdsOf(entries));
    var groups, next := DistinctGroups(entries), DistinctGroups(entries + [last]);
    IdsStep(entries, last);
    DistinctExactly(IdsOf(entries));
    assert |next| == |groups| && ids[j] == last.0;
    forall i | 0 <= i < |groups|
      ensures next[i] == if i != j || last.1 in groups[j].markers then groups[i]
                         else Group(last.0, groups[j].markers + [last.1])
    {
      KindsStep(entries, last, ids[i]);
      assert i != j ==> ids[i] != ids[j];
    }
  }

  lemma {:induction false} KindsStep<I, N>(entries: seq<(I, N)>, last: (I, N), id: I)
    ensures var kinds := Distinct(MarkersOf(entries, id));
            Distinct(MarkersOf(entries + [last], id))
              == if id != last.0 || last.1 in kinds then kinds else kinds + [last.1]
  {
    var markers := MarkersOf(entries, id);
    assert (entries + [last])[..|entries|] == entries;
    assert (markers + [last.1])[..|markers|] == markers;
  }

  lemma UnseenContext<I, N>(entries: seq<(I, N)>, last: (I, N))
    requires forall j :: 0 <= j < |DistinctGroups(entries)| ==> DistinctGroups(entries)[j].id != last.0
    ensures DistinctGroups(entries + [last]) == DistinctGroups(entries) + [Group(last.0, [last.1])]
  {
    var ids := Distinct(IdsOf(entries));
    IdsStep(entries, last);
    assert forall j :: 0 <= j < |ids| ==> DistinctGroups(entries)[j].id == ids[j];
    assert last.0 !in ids;
    MarkersStep(entries, last);
    NoMarkers(entries, last.0);
    assert Distinct([last.1]) == [last.1];
    assert MarkersOf(entries + [last], last.0) == [last.1];
  }

  /** Collects the distinct kinds per seal ID, then drops the seal IDs of one kind. */
  method SharedContexts(contexts: seq<(Id, Option<RecordKind>)>) returns (r: seq<Group<Id, Option<RecordKind>>>)
    ensures r == Shared(DistinctGroups(contexts))
  {
    var groups: seq<Group<Id, Option<RecordKind>>> := [];
    var i := 0;
    while i < |contexts|
      invariant 0 <= i <= |contexts|
      invariant groups == DistinctGroups(contexts[..i])
    {
      var (id, kind) := contexts[i];
      assert contexts[..i] + [contexts[i]] == contexts[..i + 1];
      var at := FindGroup(groups, id);
      if at < |groups| {
        KnownContext(contexts[..i], contexts[i], at);
        if kind !in groups[at].markers {
          groups := groups[at := Group(id, groups[at].markers + [kind])];
        }
      } else {
        UnseenContext(contexts[..i], contexts[i]);
        groups := groups + [Group(id, [kind])];
      }
      i := i + 1;
    }
    assert contexts[..i] == contexts;
    r := KeepShared(groups);
  }

  /** A seal ID is reported exactly when it is registered in two kinds of context. */
  lemma {:induction false} ContextsReportedExactly<I, N>(entries: seq<(I, N)>, id: I)
    ensures (exists markers :: Group(id, markers) in Shared(DistinctGroups(entries)))
       <==> Several(MarkersOf(entries, id))
  {
    if Several(MarkersOf(entries, id)) {
      SeveralAreReported(entries, id);
    }
    if markers :| Group(id, markers) in Shared(DistinctGroups(entries)) {
      ReportedAreSeveral(entries, id, markers);
    }
  }

  ghost predicate Several<N>(markers: seq<N>) {
    exists i, j :: 0 <= i < j < |markers| && markers[i] != markers[j]
  }

  lemma {:induction false} SeveralAreReported<I, N>(entries: seq<(I, N)>, id: I)
    requires Several(MarkersOf(entries, id))
    ensures Group(id, Distinct(MarkersOf(entries, id))) in Shared(DistinctGroups(entries))
  {
    var markers := MarkersOf(entries, id);
    var i, j :| 0 <= i < j < |markers| && markers[i] != markers[j];
    SeveralDistinct(markers, i, j);
    MarkersCount(entries, id);
    CountsPresence(IdsOf(entries), id);
    DistinctMember(IdsOf(entries), id);
    var ids := Distinct(IdsOf(entries));
    var k :| 0 <= k < |ids| && ids[k] == id;
    assert DistinctGroups(entries)[k] == Group(id, Distinct(markers));
    SharedExactly(DistinctGroups(entries), Group(id, Distinct(markers)));
  }

  lemma {:induction false} SeveralDistinct<N>(markers: seq<N>, i: nat, j: nat)
    requires i < |markers| && j < |markers| && markers[i] != markers[j]
    ensures |Distinct(markers)| > 1
  {
    DistinctMember(markers, markers[i]);
    DistinctMember(markers, markers[j]);
    assert markers[i] in Distinct(markers) && markers[j] in Distinct(markers);
  }

  lemma {:induction false} ReportedAreSeveral<I, N>(entries: seq<(I, N)>, id: I, kinds: seq<N>)
    requires Group(id, kinds) in Shared(DistinctGroups(entries))
    ensures Several(MarkersOf(entries, id))
  {
    SharedExactly(DistinctGroups(entries), Group(id, kinds));
    var markers := MarkersOf(entries, id);
    assert kinds == Distinct(markers);
    DistinctExactly(markers);
    DistinctMember(markers, kinds[0]);
    DistinctMember(markers, kinds[1]);
    var i :| 0 <= i < |markers| && markers[i] == kinds[0];
    var j :| 0 <= j < |markers| && markers[j] == kinds[1];
    assert if i < j then markers[i] != markers[j] else markers[j] != markers[i];
  }

  method Equal(left: Id, right: Id) returns (r: bool)
    ensures r <==> left == right
  {
    var index := 0;
    while index < 16
      invariant 0 <= index <= 16
      invariant left[..index] == right[..index]
    {
      if left[index] != right[index] {
        return false;
      }
      index := index + 1;
    }
    assert left[..16] == left && right[..16] == right;
    return true;
  }

  /** Whether any two IDs are equal, as the compile-time assertion decides it. */
  method HasDuplicate(ids: seq<Id>) returns (r: bool)
    ensures r <==> Repeats(ids)
  {
    var first := 0;
    while first < |ids|
      invariant 0 <= first <= |ids|
      invariant forall i, j :: 0 <= i < j < |ids| && i < first ==> ids[i] != ids[j]
    {
      var second := first + 1;
      while second < |ids|
        invariant first < second <= |ids|
        invariant forall j :: first < j < second ==> ids[first] != ids[j]
      {
        var equal := Equal(ids[first], ids[second]);
        if equal {
          return true;
        }
        second := second + 1;
      }
      first := first + 1;
    }
    return false;
  }
}
