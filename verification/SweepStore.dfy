/** The store a sweep drives (the `SweepStore` contract), with everything that may
    happen around a call scripted in advance. */
module SweepStores {
  import opened Rows
  import opened SweepProtocol
  import opened SweepSafety
  import opened SweepTheorems
  import opened Wrappers

  datatype Fault = NoFault | BeforeEffect | AfterEffect

  /** What happens around one store call: other writers first, then the call, which may
      fail before or after it took effect. */
  datatype Turn<+R> = Turn(others: seq<Event<R>>, fault: Fault)

  datatype Call<+T> = Done(value: T) | Lost

  function NextTurn<R>(turns: seq<Turn<R>>): Turn<R> {
    if turns == [] then Turn([], NoFault) else turns[0]
  }

  function LaterTurns<R>(turns: seq<Turn<R>>): seq<Turn<R>> {
    if turns == [] then [] else turns[1..]
  }

  function Others<R>(turns: seq<Turn<R>>): seq<Event<R>> {
    if turns == [] then [] else turns[0].others + Others(turns[1..])
  }

  predicate AllForeign<R>(events: seq<Event<R>>) {
    forall i :: 0 <= i < |events| ==> IsForeign(events[i])
  }

  function Interfere<R>(table: Table<R>, others: seq<Event<R>>): Table<R> {
    if others == [] then table
    else Affected(Interfere(table, others[..|others| - 1]), others[|others| - 1])
  }

  function Affected<R>(table: Table<R>, other: Event<R>): Table<R> {
    match other
    case Write(k, row) => table[k := row]
    case Delete(k) => table - {k}
    case _ => table
  }

  class Store<R> {
    var table: Table<R>
    var checkpoint: Option<int>
    var turns: seq<Turn<R>>
    var loads: nat
    var updates: nat
    var saves: nat

    constructor (table: Table<R>, checkpoint: Option<int>, turns: seq<Turn<R>>)
      ensures this.table == table && this.checkpoint == checkpoint && this.turns == turns
      ensures loads == updates == saves == 0
    {
      this.table, this.checkpoint, this.turns := table, checkpoint, turns;
      loads, updates, saves := 0, 0, 0;
    }

    predicate Valid()
      reads this
    {
      forall i :: 0 <= i < |turns| ==> AllForeign(turns[i].others)
    }

    method Begin() returns (fault: Fault)
      modifies this`table, this`turns
      ensures table == Interfere(old(table), NextTurn(old(turns)).others)
      ensures turns == LaterTurns(old(turns))
      ensures fault == NextTurn(old(turns)).fault
    {
      var turn := NextTurn(turns);
      turns := LaterTurns(turns);
      var i := 0;
      while i < |turn.others|
        invariant 0 <= i <= |turn.others|
        invariant table == Interfere(old(table), turn.others[..i])
        invariant turns == LaterTurns(old(turns))
      {
        assert turn.others[..i + 1][..i] == turn.others[..i];
        match turn.others[i] {
          case Write(k, row) => table := table[k := row];
          case Delete(k) => table := table - {k};
          case _ =>
        }
        i := i + 1;
      }
      assert turn.others[..i] == turn.others;
      fault := turn.fault;
    }

    method LoadCheckpoint() returns (r: Call<Option<int>>)
      modifies this`table, this`turns
      ensures table == Interfere(old(table), NextTurn(old(turns)).others)
      ensures turns == LaterTurns(old(turns))
      ensures r == if NextTurn(old(turns)).fault == NoFault then Done(checkpoint) else Lost
    {
      var fault := Begin();
      return if fault == NoFault then Done(checkpoint) else Lost;
    }

    method SaveCheckpoint(cursor: int) returns (r: Call<()>)
      modifies this`table, this`turns, this`checkpoint, this`saves
      ensures table == Interfere(old(table), NextTurn(old(turns)).others)
      ensures turns == LaterTurns(old(turns))
      ensures checkpoint == if NextTurn(old(turns)).fault == BeforeEffect then old(checkpoint) else Some(cursor)
      ensures r == if NextTurn(old(turns)).fault == NoFault then Done(()) else Lost
      ensures saves == old(saves) + 1
    {
      var fault := Begin();
      saves := saves + 1;
      if fault != BeforeEffect {
        checkpoint := Some(cursor);
      }
      return if fault == NoFault then Done(()) else Lost;
    }

    method LoadRows(after: Option<int>, limit: nat) returns (r: Call<seq<SweepRow<R>>>)
      modifies this`table, this`turns, this`loads
      ensures table == Interfere(old(table), NextTurn(old(turns)).others)
      ensures turns == LaterTurns(old(turns))
      ensures r == if NextTurn(old(turns)).fault == NoFault then Done(LoadBatch(table, after, limit)) else Lost
      ensures loads == old(loads) + 1
    {
      var fault := Begin();
      loads := loads + 1;
      return if fault == NoFault then Done(LoadBatch(table, after, limit)) else Lost;
    }

    method CompareAndSwap(row: SweepRow<R>, write: RowWrite) returns (r: Call<bool>)
      modifies this`table, this`turns, this`updates
      ensures var turn, before := NextTurn(old(turns)), Interfere(old(table), NextTurn(old(turns)).others);
              && table == (if turn.fault == BeforeEffect then before else Update(before, row, write))
              && r == (if turn.fault == NoFault then Done(Matches(before, row)) else Lost)
      ensures turns == LaterTurns(old(turns))
      ensures updates == old(updates) + 1
    {
      var fault := Begin();
      updates := updates + 1;
      var matched := Matches(table, row);
      if fault != BeforeEffect {
        table := Update(table, row, write);
      }
      return if fault == NoFault then Done(matched) else Lost;
    }
  }

  // ----- What calls consume of the script -----

  /** `after` is what some calls left of the script `before`: either no call failed, or
      exactly the last one did. */
  ghost predicate Answered<R>(before: seq<Turn<R>>, after: seq<Turn<R>>, failed: bool)
    decreases |before|
  {
    if |before| <= |after| then before == after && !failed
    else if before[0].fault == NoFault then Answered(before[1..], after, failed)
    else failed && before[1..] == after
  }

  /** The same, all at once: `after` is the end of `before`, and of the calls made before it
      none failed, but the last did if `failed` says so. */
  ghost predicate FailedLast<R>(before: seq<Turn<R>>, after: seq<Turn<R>>, failed: bool) {
    var calls := |before| - |after|;
    && calls >= 0 && before[calls..] == after && (failed ==> calls > 0)
    && forall i :: 0 <= i < calls ==> Fails(before[i], failed && i == calls - 1)
  }

  predicate Fails<R>(turn: Turn<R>, fails: bool) {
    turn.fault != NoFault <==> fails
  }

  lemma {:induction false} AnsweredExactly<R>(before: seq<Turn<R>>, after: seq<Turn<R>>, failed: bool)
    ensures Answered(before, after, failed) <==> FailedLast(before, after, failed)
    decreases |before|
  {
    if |before| > |after| {
      FailedLastStep(before, after, failed);
      AnsweredExactly(before[1..], after, failed);
    }
  }

  lemma FailedLastStep<R>(before: seq<Turn<R>>, after: seq<Turn<R>>, failed: bool)
    requires |before| > |after|
    ensures FailedLast(before, after, failed)
       <==> if before[0].fault == NoFault then FailedLast(before[1..], after, failed)
            else failed && before[1..] == after
  {
    var calls, rest := |before| - |after|, before[1..];
    assert rest[calls - 1..] == before[calls..];
    if FailedLast(before, after, failed) {
      assert Fails(before[0], failed && calls == 1);
      forall i | 0 <= i < calls - 1
        ensures Fails(rest[i], failed && i == calls - 2)
      {
        assert Fails(before[i + 1], failed && i + 1 == calls - 1);
      }
    }
    if before[0].fault == NoFault && FailedLast(rest, after, failed) {
      forall i | 1 <= i < calls
        ensures Fails(before[i], failed && i == calls - 1)
      {
        assert Fails(rest[i - 1], failed && i - 1 == calls - 2);
      }
    }
  }

  lemma {:induction false} OneCall<R>(turns: seq<Turn<R>>)
    ensures Answered(turns, LaterTurns(turns), NextTurn(turns).fault != NoFault)
    ensures Answered(turns, turns, false)
  {
  }

  lemma {:induction false} QuietTurn<R>(table: Table<R>, turns: seq<Turn<R>>)
    ensures turns == [] ==> Interfere(table, NextTurn(turns).others) == table
  {
  }

  lemma {:induction false} AnsweredShrinks<R>(before: seq<Turn<R>>, after: seq<Turn<R>>, failed: bool)
    requires Answered(before, after, failed)
    ensures |after| <= |before|
    decreases |before|
  {
    if |before| > |after| && before[0].fault == NoFault {
      AnsweredShrinks(before[1..], after, failed);
    }
  }

  lemma {:induction false} MoreCalls<R>(
    before: seq<Turn<R>>, between: seq<Turn<R>>, after: seq<Turn<R>>, failed: bool)
    requires Answered(before, between, false) && Answered(between, after, failed)
    ensures Answered(before, after, failed)
    decreases |before|
  {
    AnsweredShrinks(between, after, failed);
    if |before| > |between| {
      MoreCalls(before[1..], between, after, failed);
    }
  }

  /** How many calls of a script fail. */
  function Faults<R>(turns: seq<Turn<R>>): nat {
    if turns == [] then 0 else (if turns[0].fault != NoFault then 1 else 0) + Faults(turns[1..])
  }

  lemma {:induction false} FaultsAnswered<R>(before: seq<Turn<R>>, after: seq<Turn<R>>, failed: bool)
    requires Answered(before, after, failed)
    ensures Faults(before) == Faults(after) + if failed then 1 else 0
    decreases |before|
  {
    if |before| > |after| && before[0].fault == NoFault {
      FaultsAnswered(before[1..], after, failed);
    }
  }

  // ----- The other writers -----

  /** Writers of current rows leave no row that was current, or absent, otherwise. */
  lemma {:induction false} OthersKeepCurrent<R, V>(
    rules: RowRules<R, V>, table: Table<R>, others: seq<Event<R>>, k: int)
    requires CurrentWriters(rules, others)
    requires k in table ==> IsCurrent(rules, table[k])
    ensures k in Interfere(table, others) ==> IsCurrent(rules, Interfere(table, others)[k])
    decreases |others|
  {
    if others != [] {
      var before, last := others[..|others| - 1], others[|others| - 1];
      assert forall i :: 0 <= i < |before| ==> before[i] == others[i];
      assert last.Write? ==> IsCurrent(rules, last.row);
      OthersKeepCurrent(rules, table, before, k);
    }
  }

  lemma {:induction false} CurrentTurns<R, V>(rules: RowRules<R, V>, turns: seq<Turn<R>>)
    requires CurrentWriters(rules, Others(turns))
    ensures CurrentWriters(rules, NextTurn(turns).others) && CurrentWriters(rules, Others(LaterTurns(turns)))
  {
    if turns != [] {
      var now, later, all := turns[0].others, Others(turns[1..]), Others(turns);
      assert forall i :: 0 <= i < |now| ==> now[i] == all[i];
      assert forall i :: 0 <= i < |later| ==> later[i] == all[|now| + i];
    }
  }

  // ----- The other writers, seen as events of the protocol -----

  lemma {:induction false} ExecuteOthers<R, V>(
    rules: RowRules<R, V>, limit: nat, start: State<R>, trace: seq<Event<R>>, others: seq<Event<R>>)
    requires AllForeign(others)
    ensures var s, t := Execute(rules, limit, start, trace), Execute(rules, limit, start, trace + others);
            && t.table == Interfere(s.table, others)
            && t.checkpoint == s.checkpoint && t.workers == s.workers
  {
    ExecuteAll(rules, limit, start, trace, others, trace + others);
  }

  lemma {:induction false} ExecuteAll<R, V>(
    rules: RowRules<R, V>, limit: nat, start: State<R>, trace: seq<Event<R>>, others: seq<Event<R>>,
    all: seq<Event<R>>)
    requires AllForeign(others) && all == trace + others
    ensures var s, t := Execute(rules, limit, start, trace), Execute(rules, limit, start, all);
            && t.table == Interfere(s.table, others)
            && t.checkpoint == s.checkpoint && t.workers == s.workers
    decreases |others|
  {
    if others == [] {
      assert all == trace;
    } else {
      var before, last, shorter := others[..|others| - 1], others[|others| - 1], all[..|all| - 1];
      assert AllForeign(before) && IsForeign(last);
      assert shorter == trace + before && all[|all| - 1] == last;
      ExecuteAll(rules, limit, start, trace, before, shorter);
      OtherStep(rules, limit, Execute(rules, limit, start, shorter), last);
    }
  }

  lemma {:induction false} OthersAreForeign<R>(trace: seq<Event<R>>, others: seq<Event<R>>)
    requires AllForeign(others)
    ensures ForeignEvents(trace + others) == ForeignEvents(trace) + others
    decreases |others|
  {
    if others == [] {
      assert trace + others == trace;
    } else {
      var before, last := others[..|others| - 1], others[|others| - 1];
      assert AllForeign(before) && IsForeign(last);
      OthersAreForeign(trace, before);
      assert trace + others == (trace + before) + [last];
      ForeignEventsMore(trace + before, last);
    }
  }

  lemma OtherStep<R, V>(rules: RowRules<R, V>, limit: nat, s: State<R>, other: Event<R>)
    requires IsForeign(other)
    ensures var t := Step(rules, limit, s, other);
            t.table == Affected(s.table, other) && t.checkpoint == s.checkpoint && t.workers == s.workers
  {
  }

  lemma {:induction false} ForeignEventsMore<R>(trace: seq<Event<R>>, last: Event<R>)
    requires IsForeign(last)
    ensures ForeignEvents(trace + [last]) == ForeignEvents(trace) + [last]
  {
    assert (trace + [last])[..|trace|] == trace;
  }
}
