/** The sweep driver (src/migrate/sweep.rs, src/migrate/report.rs) over a mutable store.
    A run is proved to be an execution of the protocol, step for step, so every theorem
    about executions is a theorem about runs. */
module SweepDriver {
  import opened Envelopes
  import opened Rows
  import opened SweepProtocol
  import opened SweepReports
  import opened SweepSafety
  import opened SweepScan
  import opened SweepStores
  import opened SweepTheorems
  import opened SweepTraces
  import opened Wrappers

  class SweepReport {
    var current: nat
    var stale: nat
    var legacy: nat
    var malformed: nat
    var conflicts: nat

    constructor ()
      ensures View() == NO_ROWS
    {
      current, stale, legacy, malformed, conflicts := 0, 0, 0, 0, 0;
    }

    function View(): Tally
      reads this
    {
      Tally(current, stale, legacy, malformed, conflicts)
    }

    method Record(state: RowState)
      modifies this
      ensures View() == old(View()).Record(state)
    {
      match state
      case Current => current := current + 1;
      case Stale => stale := stale + 1;
      case Legacy => legacy := legacy + 1;
    }

    method RecordMalformed()
      modifies this
      ensures View() == old(View()).(malformed := old(malformed) + 1)
    {
      malformed := malformed + 1;
    }

    method RecordConflict()
      modifies this
      ensures View() == old(View()).(conflicts := old(conflicts) + 1)
    {
      conflicts := conflicts + 1;
    }
  }

  /** Randomness, drawn once per planned row. */
  class Randomness {
    const source: nat -> Entropy
    var drawn: nat

    constructor (source: nat -> Entropy)
      ensures this.source == source && drawn == 0
    {
      this.source, drawn := source, 0;
    }

    method Draw() returns (entropy: Entropy)
      modifies this
      ensures entropy == source(old(drawn)) && drawn == old(drawn) + 1
    {
      entropy := source(drawn);
      drawn := drawn + 1;
    }
  }

  datatype SweepResult<+T> = Completed(value: T) | StoreFailed | RowFailed(error: Error)

  /** The state and pending turns of a store, without the heap. */
  datatype View<R> = View(table: Table<R>, checkpoint: Option<int>, turns: seq<Turn<R>>)

  ghost function Now<R>(store: Store<R>): View<R>
    reads store
  {
    View(store.table, store.checkpoint, store.turns)
  }

  /** `trace` leads the protocol from `start` to the viewed store, with the worker's
      memory as given; `all` is everything the other writers do in the end. */
  ghost predicate Follows<R, V>(
    sweep: Sweep<R, V>, view: View<R>, start: State<R>, trace: seq<Event<R>>, memory: Worker<R>, all: seq<Event<R>>)
  {
    var s := Execute(sweep.rules, sweep.batchSize, start, trace);
    && (forall i :: 0 <= i < |view.turns| ==> AllForeign(view.turns[i].others))
    && s.table == view.table && s.checkpoint == view.checkpoint && s.Of(0) == memory
    && ForeignEvents(trace) + Others(view.turns) == all
    && OneWorker(trace, 0) && StartsOnce(trace)
  }

  /** After a turn's writers, the extended trace still leads to the store's state. */
  lemma TurnFollows<R, V>(
    sweep: Sweep<R, V>, view: View<R>, start: State<R>, trace: seq<Event<R>>, memory: Worker<R>, all: seq<Event<R>>)
    requires Follows(sweep, view, start, trace, memory, all)
    ensures var turn := NextTurn(view.turns);
            Follows(sweep, View(Interfere(view.table, turn.others), view.checkpoint, LaterTurns(view.turns)),
                    start, trace + turn.others, memory, all)
  {
    var turn := NextTurn(view.turns);
    ExecuteOthers(sweep.rules, sweep.batchSize, start, trace, turn.others);
    OthersAreForeign(trace, turn.others);
    ShapeKept(trace, turn.others);
    TurnOthers(ForeignEvents(trace), view.turns, all);
  }

  lemma ShapeKept<R>(trace: seq<Event<R>>, others: seq<Event<R>>)
    requires AllForeign(others) && OneWorker(trace, 0) && StartsOnce(trace)
    ensures OneWorker(trace + others, 0) && StartsOnce(trace + others)
  {
    StartsOnceMore(trace, others);
  }

  lemma {:induction false} TurnOthers<R>(done: seq<Event<R>>, turns: seq<Turn<R>>, all: seq<Event<R>>)
    requires done + Others(turns) == all
    ensures done + NextTurn(turns).others + Others(LaterTurns(turns)) == all
  {
  }

  /** The worker's own step extends the trace by one event. */
  lemma {:induction false} StepFollows<R, V>(
    sweep: Sweep<R, V>, view: View<R>, start: State<R>, trace: seq<Event<R>>, memory: Worker<R>, all: seq<Event<R>>,
    event: Event<R>)
    requires Follows(sweep, view, start, trace, memory, all) && !IsForeign(event) && event.worker == 0
    requires event.Start? ==> AllForeign(trace)
    ensures var t := Step(sweep.rules, sweep.batchSize, Execute(sweep.rules, sweep.batchSize, start, trace), event);
            Follows(sweep, View(t.table, t.checkpoint, view.turns), start, trace + [event], t.Of(0), all)
  {
    ExecuteOne(sweep.rules, sweep.batchSize, start, trace, event);
    OwnEvent(trace, event);
  }

  lemma {:induction false} OwnEvent<R>(trace: seq<Event<R>>, event: Event<R>)
    requires !IsForeign(event) && event.worker == 0 && OneWorker(trace, 0)
    requires StartsOnce(trace) && (event.Start? ==> AllForeign(trace))
    ensures ForeignEvents(trace + [event]) == ForeignEvents(trace)
    ensures OneWorker(trace + [event], 0) && StartsOnce(trace + [event])
  {
    assert (trace + [event])[..|trace|] == trace;
    assert ForeignEvents(trace + [event]) == ForeignEvents(trace) + [];
  }

  datatype Sweep<!R, !V> = Sweep(rules: RowRules<R, V>, batchSize: nat) {
    /** A batch size of zero becomes one. */
    function WithBatchSize(batchSize: nat): (r: Sweep<R, V>)
      ensures r.rules == rules && r.batchSize > 0 && (batchSize > 0 ==> r.batchSize == batchSize)
    {
      this.(batchSize := if batchSize < 1 then 1 else batchSize)
    }
  }

  /** A store call in the trace: first the other writers of its turn, then the worker's own
      event if the call took effect, then the worker's end if it failed. */
  function Called<R>(trace: seq<Event<R>>, turn: Turn<R>, event: Event<R>): seq<Event<R>> {
    match turn.fault
    case NoFault => trace + turn.others + [event]
    case BeforeEffect => trace + turn.others + [Crash(0)]
    case AfterEffect => trace + turn.others + [event] + [Crash(0)]
  }

  /** `between` is the store after the turn's writers, `after` and `next` what the event
      makes of it and of the worker. */
  lemma {:induction false} CallFollows<R, V>(
    sweep: Sweep<R, V>, start: State<R>, trace: seq<Event<R>>, all: seq<Event<R>>, turn: Turn<R>, event: Event<R>,
    between: View<R>, memory: Worker<R>, after: View<R>, next: Worker<R>)
    requires AllForeign(turn.others) && !event.Start?
    requires Follows(sweep, between, start, trace + turn.others, memory, all)
    requires Follows(sweep, after, start, trace + turn.others + [event], next, all)
    ensures Follows(sweep, if turn.fault == BeforeEffect then between else after, start, Called(trace, turn, event),
                    if turn.fault == NoFault then next else Down, all)
    ensures Draws(Called(trace, turn, event))
         == Draws(trace) + if event.Process? && turn.fault != BeforeEffect then [event.entropy] else []
  {
    OthersDrawNothing(trace, turn.others);
    DrawsMore(trace + turn.others, event);
    match turn.fault
    case NoFault =>
    case BeforeEffect =>
      CrashFollows(sweep, between, start, trace + turn.others, memory, all);
    case AfterEffect =>
      CrashFollows(sweep, after, start, trace + turn.others + [event], next, all);
  }

  /** A store failure ends the worker, wherever it was. */
  lemma {:induction false} CrashFollows<R, V>(
    sweep: Sweep<R, V>, view: View<R>, start: State<R>, trace: seq<Event<R>>, memory: Worker<R>, all: seq<Event<R>>)
    requires Follows(sweep, view, start, trace, memory, all)
    ensures Follows(sweep, view, start, trace + [Crash(0)], Down, all)
    ensures Draws(trace + [Crash(0)]) == Draws(trace)
  {
    StepFollows(sweep, view, start, trace, memory, all, Crash(0));
    DrawsMore(trace, Crash(0));
  }

  /** Where processing a row leaves the worker and the table. */
  ghost function Processed<R, V>(
    sweep: Sweep<R, V>, table: Table<R>, memory: Worker<R>, entropy: Entropy): (Table<R>, Worker<R>)
    requires memory.Processing? && memory.done < |memory.batch|
  {
    var row := memory.batch[memory.done];
    match sweep.rules.plan(row.row, entropy)
    case Err(error) => (table, Failed(memory.after, memory.batch, memory.done, error))
    case Ok(Unchanged(state)) =>
      (table, memory.(done := memory.done + 1, tally := memory.tally.Record(state)))
    case Ok(Rewrite(state, write)) =>
      (Update(table, row, write),
       memory.(done := memory.done + 1,
               tally := if Matches(table, row) then memory.tally.Record(state)
                        else memory.tally.(conflicts := memory.tally.conflicts + 1)))
  }

  lemma ProcessFollows<R, V>(
    sweep: Sweep<R, V>, view: View<R>, start: State<R>, trace: seq<Event<R>>, memory: Worker<R>, all: seq<Event<R>>,
    entropy: Entropy)
    requires Follows(sweep, view, start, trace, memory, all)
    requires memory.Processing? && memory.done < |memory.batch|
    ensures var (table, next) := Processed(sweep, view.table, memory, entropy);
            Follows(sweep, view.(table := table), start, trace + [Process(0, entropy)], next, all)
  {
    StepFollows(sweep, view, start, trace, memory, all, Process(0, entropy));
  }

  /** A plan that writes nothing makes no store call. */
  lemma PlanFollows<R, V>(
    sweep: Sweep<R, V>, view: View<R>, start: State<R>, trace: seq<Event<R>>, memory: Worker<R>, all: seq<Event<R>>,
    entropy: Entropy, row: SweepRow<R>, planned: Result<RowOutcome>)
    returns (longer: seq<Event<R>>)
    requires Follows(sweep, view, start, trace, memory, all)
    requires memory.Processing? && memory.done < |memory.batch| && memory.batch[memory.done] == row
    requires sweep.rules.plan(row.row, entropy) == planned && (planned.Ok? ==> planned.value.Unchanged?)
    ensures Follows(sweep, view, start, longer,
                    if planned.Err? then Failed(memory.after, memory.batch, memory.done, planned.error)
                    else memory.(done := memory.done + 1, tally := memory.tally.Record(planned.value.state)), all)
    ensures Draws(longer) == Draws(trace) + [entropy]
  {
    ProcessFollows(sweep, view, start, trace, memory, all, entropy);
    DrawsMore(trace, Process(0, entropy));
    longer := trace + [Process(0, entropy)];
  }

  /** What a compare-and-swap adds to a worker's report. */
  function Counted(tally: Tally, state: RowState, matched: bool): Tally {
    if matched then tally.Record(state) else tally.(conflicts := tally.conflicts + 1)
  }

  /** Where a compare-and-swap leaves the store. */
  function Swapped<R>(view: View<R>, row: SweepRow<R>, write: RowWrite): View<R> {
    var turn := NextTurn(view.turns);
    var before := Interfere(view.table, turn.others);
    View(if turn.fault == BeforeEffect then before else Update(before, row, write), view.checkpoint,
         LaterTurns(view.turns))
  }

  lemma QuietSwap<R>(view: View<R>, row: SweepRow<R>, write: RowWrite)
    ensures view.turns == [] ==> Swapped(view, row, write).table.Keys == view.table.Keys
  {
  }

  lemma RewriteFollows<R, V>(
    sweep: Sweep<R, V>, view: View<R>, start: State<R>, trace: seq<Event<R>>, memory: Worker<R>, all: seq<Event<R>>,
    entropy: Entropy, row: SweepRow<R>, state: RowState, write: RowWrite, after: View<R>)
    returns (longer: seq<Event<R>>)
    requires Follows(sweep, view, start, trace, memory, all) && after == Swapped(view, row, write)
    requires memory.Processing? && memory.done < |memory.batch| && memory.batch[memory.done] == row
    requires sweep.rules.plan(row.row, entropy) == Ok(Rewrite(state, write))
    ensures var turn := NextTurn(view.turns);
            var tally := Counted(memory.tally, state, Matches(Interfere(view.table, turn.others), row));
            Follows(sweep, after, start, longer,
                    if turn.fault == NoFault then memory.(done := memory.done + 1, tally := tally) else Down, all)
    ensures Draws(longer) == Draws(trace) + if NextTurn(view.turns).fault != BeforeEffect then [entropy] else []
  {
    var turn := NextTurn(view.turns);
    var between := View(Interfere(view.table, turn.others), view.checkpoint, LaterTurns(view.turns));
    var (table, next) := Processed(sweep, between.table, memory, entropy);
    TurnFollows(sweep, view, start, trace, memory, all);
    ProcessFollows(sweep, between, start, trace + turn.others, memory, all, entropy);
    CallFollows(sweep, start, trace, all, turn, Process(0, entropy), between, memory, between.(table := table), next);
    longer := Called(trace, turn, Process(0, entropy));
  }

  /** One compare-and-swap. */
  method TryUpdate<R, V>(
    sweep: Sweep<R, V>, store: Store<R>, row: SweepRow<R>, state: RowState, write: RowWrite,
    ghost start: State<R>, ghost trace: seq<Event<R>>, ghost memory: Worker<R>, ghost all: seq<Event<R>>,
    ghost entropy: Entropy)
    returns (r: Call<bool>, ghost longer: seq<Event<R>>)
    requires Follows(sweep, Now(store), start, trace, memory, all)
    requires memory.Processing? && memory.done < |memory.batch| && memory.batch[memory.done] == row
    requires sweep.rules.plan(row.row, entropy) == Ok(Rewrite(state, write))
    modifies store
    ensures Answered(old(store.turns), store.turns, r.Lost?)
    ensures Follows(sweep, Now(store), start, longer,
                    if r.Lost? then Down
                    else memory.(done := memory.done + 1, tally := Counted(memory.tally, state, r.value)), all)
    ensures Draws(longer) == Draws(trace) + [entropy] || (r.Lost? && Draws(longer) == Draws(trace))
    ensures store.turns == LaterTurns(old(store.turns))
    ensures store.loads == old(store.loads) && store.saves == old(store.saves)
    ensures old(store.turns) == [] ==> store.table.Keys == old(store.table.Keys)
  {
    ghost var after := Swapped(Now(store), row, write);
    longer := RewriteFollows(sweep, Now(store), start, trace, memory, all, entropy, row, state, write, after);
    QuietSwap(Now(store), row, write);
    OneCall(store.turns);
    r := store.CompareAndSwap(row, write);
    assert Now(store) == after;
  }

  /** Applies a rewrite with a compare-and-swap; a lost one is counted, not retried. */
  method ApplyRewrite<R, V>(
    sweep: Sweep<R, V>, store: Store<R>, report: SweepReport, row: SweepRow<R>, state: RowState, write: RowWrite,
    ghost start: State<R>, ghost trace: seq<Event<R>>, ghost memory: Worker<R>, ghost all: seq<Event<R>>,
    ghost entropy: Entropy)
    returns (r: SweepResult<()>, ghost longer: seq<Event<R>>)
    requires Follows(sweep, Now(store), start, trace, memory, all)
    requires memory.Processing? && memory.done < |memory.batch| && memory.batch[memory.done] == row
    requires memory.tally == report.View()
    requires sweep.rules.plan(row.row, entropy) == Ok(Rewrite(state, write))
    modifies store, report
    ensures !r.RowFailed? && Answered(old(store.turns), store.turns, r.StoreFailed?)
    ensures Follows(sweep, Now(store), start, longer,
                    if r.Completed? then memory.(done := memory.done + 1, tally := report.View()) else Down, all)
    ensures Draws(longer) == Draws(trace) + [entropy] || (r.StoreFailed? && Draws(longer) == Draws(trace))
    ensures store.turns == LaterTurns(old(store.turns))
    ensures store.loads == old(store.loads) && store.saves == old(store.saves)
    ensures old(store.turns) == [] ==> store.table.Keys == old(store.table.Keys)
  {
    var updated;
    updated, longer := TryUpdate(sweep, store, row, state, write, start, trace, memory, all, entropy);
    match updated
    case Done(matched) =>
      if matched {
        report.Record(state);
      } else {
        report.RecordConflict();
      }
      r := Completed(());
    case Lost =>
      r := StoreFailed;
  }

  /** Plans one loaded row, and applies its rewrite if it needs one. */
  method ProcessRow<R, V>(
    sweep: Sweep<R, V>, store: Store<R>, random: Randomness, report: SweepReport, row: SweepRow<R>,
    ghost start: State<R>, ghost trace: seq<Event<R>>, ghost memory: Worker<R>, ghost all: seq<Event<R>>)
    returns (r: SweepResult<()>, ghost longer: seq<Event<R>>)
    requires Follows(sweep, Now(store), start, trace, memory, all)
    requires memory.Processing? && memory.done < |memory.batch| && memory.batch[memory.done] == row
    requires memory.tally == report.View()
    modifies store, random, report
    ensures random.drawn == old(random.drawn) + 1
    ensures var drawn := [random.source(old(random.drawn))];
            Draws(longer) == Draws(trace) + drawn || (r.StoreFailed? && Draws(longer) == Draws(trace))
    ensures Follows(sweep, Now(store), start, longer,
                    match r
                    case Completed(_) => memory.(done := memory.done + 1, tally := report.View())
                    case RowFailed(error) => Failed(memory.after, memory.batch, memory.done, error)
                    case StoreFailed => Down, all)
    ensures Answered(old(store.turns), store.turns, r.StoreFailed?)
    ensures store.loads == old(store.loads) && store.saves == old(store.saves)
    ensures old(store.turns) == [] ==> store.table.Keys == old(store.table.Keys)
  {
    OneCall(store.turns);
    var entropy := random.Draw();
    var planned := sweep.rules.plan(row.row, entropy);
    match planned
    case Err(error) =>
      longer := PlanFollows(sweep, Now(store), start, trace, memory, all, entropy, row, planned);
      r := RowFailed(error);
    case Ok(Unchanged(state)) =>
      longer := PlanFollows(sweep, Now(store), start, trace, memory, all, entropy, row, planned);
      report.Record(state);
      r := Completed(());
    case Ok(Rewrite(state, write)) =>
      r, longer := ApplyRewrite(sweep, store, report, row, state, write, start, trace, memory, all, entropy);
  }

  /** Where loading a batch leaves the worker. */
  function Loading<R>(after: Option<int>, batch: seq<SweepRow<R>>, tally: Tally, loaded: nat): Worker<R> {
    if batch == [] then Finished(tally, loaded) else Processing(after, batch, 0, tally, loaded + |batch|)
  }

  lemma LoadFollows<R, V>(
    sweep: Sweep<R, V>, view: View<R>, start: State<R>, trace: seq<Event<R>>, after: Option<int>, tally: Tally,
    loaded: nat, all: seq<Event<R>>)
    returns (longer: seq<Event<R>>)
    requires Follows(sweep, view, start, trace, Ready(after, tally, loaded), all)
    ensures var turn := NextTurn(view.turns);
            var table := Interfere(view.table, turn.others);
            var next := Loading(after, LoadBatch(table, after, sweep.batchSize), tally, loaded);
            Follows(sweep, View(table, view.checkpoint, LaterTurns(view.turns)), start, longer,
                    if turn.fault == NoFault then next else Down, all)
    ensures Draws(longer) == Draws(trace)
  {
    var turn, memory: Worker<R> := NextTurn(view.turns), Ready(after, tally, loaded);
    var between := View(Interfere(view.table, turn.others), view.checkpoint, LaterTurns(view.turns));
    var next := Loading(after, LoadBatch(between.table, after, sweep.batchSize), tally, loaded);
    TurnFollows(sweep, view, start, trace, memory, all);
    StepFollows(sweep, between, start, trace + turn.others, memory, all, Load(0));
    CallFollows(sweep, start, trace, all, turn, Load(0), between, memory, between, next);
    longer := Called(trace, turn, Load(0));
  }

  /** Loads the batch strictly after `after`. */
  method LoadNext<R, V>(
    sweep: Sweep<R, V>, store: Store<R>, after: Option<int>,
    ghost start: State<R>, ghost trace: seq<Event<R>>, ghost tally: Tally, ghost loaded: nat, ghost all: seq<Event<R>>)
    returns (r: SweepResult<seq<SweepRow<R>>>, ghost longer: seq<Event<R>>)
    requires Follows(sweep, Now(store), start, trace, Ready(after, tally, loaded), all)
    modifies store
    ensures Follows(sweep, Now(store), start, longer,
                    match r
                    case Completed(batch) => Loading(after, batch, tally, loaded)
                    case _ => Down, all)
    ensures r.Completed? ==> r.value == LoadBatch(store.table, after, sweep.batchSize)
    ensures !r.RowFailed? && Answered(old(store.turns), store.turns, r.StoreFailed?)
    ensures Draws(longer) == Draws(trace)
    ensures store.turns == LaterTurns(old(store.turns))
    ensures store.loads == old(store.loads) + 1 && store.saves == old(store.saves)
    ensures old(store.turns) == [] ==> store.table == old(store.table)
  {
    ghost var turn := NextTurn(store.turns);
    ghost var view := View(Interfere(store.table, turn.others), store.checkpoint, LaterTurns(store.turns));
    longer := LoadFollows(sweep, Now(store), start, trace, after, tally, loaded, all);
    OneCall(store.turns);
    QuietTurn(store.table, store.turns);
    var rows := store.LoadRows(after, sweep.batchSize);
    assert Now(store) == view;
    match rows
    case Done(batch) => r := Completed(batch);
    case Lost => r := StoreFailed;
  }

  /** Processes a loaded batch row by row, stopping at the first failure. */
  method ProcessRows<R, V>(
    sweep: Sweep<R, V>, store: Store<R>, random: Randomness, report: SweepReport, rows: seq<SweepRow<R>>,
    ghost start: State<R>, ghost trace: seq<Event<R>>, ghost loaded: Worker<R>, ghost all: seq<Event<R>>,
    ghost before: seq<Turn<R>>, ghost from: nat)
    returns (r: SweepResult<()>, ghost longer: seq<Event<R>>, ghost memory: Worker<R>)
    requires loaded.Processing? && loaded.batch == rows && loaded.done == 0 && loaded.tally == report.View()
    requires Follows(sweep, Now(store), start, trace, loaded, all)
    requires Orderly(before, store.turns, random.source, from, random.drawn, Draws(trace), false)
    modifies store, random, report
    ensures Follows(sweep, Now(store), start, longer, memory, all)
    ensures match r
            case Completed(_) => memory == loaded.(done := |rows|, tally := report.View())
            case RowFailed(error) => memory.Failed? && memory.error == error
            case StoreFailed => memory.Down?
    ensures Orderly(before, store.turns, random.source, from, random.drawn, Draws(longer), r.StoreFailed?)
    ensures |store.turns| <= |old(store.turns)|
    ensures store.loads == old(store.loads) && store.saves == old(store.saves)
    ensures old(store.turns) == [] ==> store.table.Keys == old(store.table.Keys)
  {
    longer, memory := trace, loaded;
    var i := 0;
    while i < |rows|
      invariant 0 <= i <= |rows|
      invariant memory == loaded.(done := i, tally := report.View())
      invariant Follows(sweep, Now(store), start, longer, memory, all)
      invariant Orderly(before, store.turns, random.source, from, random.drawn, Draws(longer), false)
      invariant |store.turns| <= |old(store.turns)|
      invariant store.loads == old(store.loads) && store.saves == old(store.saves)
      invariant old(store.turns) == [] ==> store.table.Keys == old(store.table.Keys)
    {
      ghost var turns, drawn, draws := store.turns, random.drawn, Draws(longer);
      var processed;
      processed, longer := ProcessRow(sweep, store, random, report, rows[i], start, longer, memory, all);
      RowOrderly(before, turns, store.turns, random.source, from, drawn, draws, Draws(longer),
                 processed.StoreFailed?);
      match processed {
        case Completed(_) =>
          memory := memory.(done := memory.done + 1, tally := report.View());
        case RowFailed(error) =>
          return RowFailed(error), longer, Failed(memory.after, memory.batch, memory.done, error);
        case StoreFailed =>
          return StoreFailed, longer, Down;
      }
      i := i + 1;
    }
    r := Completed(());
  }

  /** Loads and processes the next batch; the result is where it ended, or none when there
      was nothing to load. */
  method ProcessBatch<R, V>(
    sweep: Sweep<R, V>, store: Store<R>, random: Randomness, report: SweepReport, after: Option<int>,
    ghost start: State<R>, ghost trace: seq<Event<R>>, ghost loaded: nat, ghost all: seq<Event<R>>,
    ghost before: seq<Turn<R>>, ghost from: nat)
    returns (r: SweepResult<Option<int>>, ghost longer: seq<Event<R>>, ghost memory: Worker<R>)
    requires sweep.batchSize > 0
    requires Orderly(before, store.turns, random.source, from, random.drawn, Draws(trace), false)
    requires Follows(sweep, Now(store), start, trace, Ready(after, report.View(), loaded), all)
    modifies store, random, report
    ensures Follows(sweep, Now(store), start, longer, memory, all)
    ensures match r
            case Completed(None) => memory.Finished? && memory.tally == report.View()
            case Completed(Some(last)) =>
              && memory.Processing? && memory.done == |memory.batch| > 0 && memory.tally == report.View()
              && last == LastCursor(memory.batch) && After(after, last)
              && (old(store.turns) == [] ==> last in store.table)
            case RowFailed(error) => memory.Failed? && memory.error == error
            case StoreFailed => memory.Down?
    ensures Orderly(before, store.turns, random.source, from, random.drawn, Draws(longer), r.StoreFailed?)
    ensures store.loads == old(store.loads) + 1 && store.saves == old(store.saves)
    ensures old(store.turns) == [] && r.Completed? ==>
              LoadsFrom(old(store.table.Keys), after, sweep.batchSize)
                == 1 + if r.value == None then 0 else LoadsFrom(old(store.table.Keys), r.value, sweep.batchSize)
    ensures old(store.turns) != [] ==> |store.turns| < |old(store.turns)|
    ensures old(store.turns) == [] ==> store.turns == [] && store.table.Keys == old(store.table.Keys)
  {
    ghost var tally := report.View();
    ghost var turns := store.turns;
    var rows;
    rows, longer := LoadNext(sweep, store, after, start, trace, tally, loaded, all);
    CallOrderly(before, turns, store.turns, random.source, from, random.drawn, Draws(trace), rows.StoreFailed?);
    if !rows.Completed? {
      return StoreFailed, longer, Down;
    }
    LoadCounts(store.table, after, sweep.batchSize);
    if rows.value == [] {
      return Completed(None), longer, Finished(tally, loaded);
    }
    LoadBatchExact(store.table, after, sweep.batchSize);
    var processed;
    memory := Processing(after, rows.value, 0, tally, loaded + |rows.value|);
    processed, longer, memory :=
      ProcessRows(sweep, store, random, report, rows.value, start, longer, memory, all, before, from);
    match processed
    case Completed(_) => r := Completed(Some(LastCursor(rows.value)));
    case RowFailed(error) => r := RowFailed(error);
    case StoreFailed => r := StoreFailed;
  }

  lemma SaveFollows<R, V>(
    sweep: Sweep<R, V>, view: View<R>, start: State<R>, trace: seq<Event<R>>, memory: Worker<R>, all: seq<Event<R>>)
    returns (longer: seq<Event<R>>)
    requires Follows(sweep, view, start, trace, memory, all)
    requires memory.Processing? && memory.done == |memory.batch| > 0
    ensures var turn, last := NextTurn(view.turns), Some(LastCursor(memory.batch));
            Follows(sweep,
                    View(Interfere(view.table, turn.others),
                         if turn.fault == BeforeEffect then view.checkpoint else last, LaterTurns(view.turns)),
                    start, longer,
                    if turn.fault == NoFault then Ready(last, memory.tally, memory.loaded) else Down, all)
    ensures Draws(longer) == Draws(trace)
  {
    var turn, last := NextTurn(view.turns), Some(LastCursor(memory.batch));
    var between := View(Interfere(view.table, turn.others), view.checkpoint, LaterTurns(view.turns));
    TurnFollows(sweep, view, start, trace, memory, all);
    StepFollows(sweep, between, start, trace + turn.others, memory, all, Save(0));
    CallFollows(sweep, start, trace, all, turn, Save(0), between, memory, between.(checkpoint := last),
                Ready(last, memory.tally, memory.loaded));
    longer := Called(trace, turn, Save(0));
  }

  /** Makes the end of the batch just processed the checkpoint. */
  method SaveProgress<R, V>(
    sweep: Sweep<R, V>, store: Store<R>, checkpoint: int,
    ghost start: State<R>, ghost trace: seq<Event<R>>, ghost memory: Worker<R>, ghost all: seq<Event<R>>)
    returns (r: SweepResult<()>, ghost longer: seq<Event<R>>)
    requires Follows(sweep, Now(store), start, trace, memory, all)
    requires memory.Processing? && memory.done == |memory.batch| > 0 && checkpoint == LastCursor(memory.batch)
    modifies store
    ensures !r.RowFailed? && Answered(old(store.turns), store.turns, r.StoreFailed?)
    ensures Follows(sweep, Now(store), start, longer,
                    if r.Completed? then Ready(Some(checkpoint), memory.tally, memory.loaded) else Down, all)
    ensures r.Completed? ==> store.checkpoint == Some(checkpoint)
    ensures Draws(longer) == Draws(trace)
    ensures store.turns == LaterTurns(old(store.turns))
    ensures store.loads == old(store.loads) && store.saves == old(store.saves) + 1
    ensures old(store.turns) == [] ==> store.table.Keys == old(store.table.Keys)
  {
    ghost var turn := NextTurn(store.turns);
    ghost var view := View(Interfere(store.table, turn.others),
                           if turn.fault == BeforeEffect then store.checkpoint else Some(checkpoint),
                           LaterTurns(store.turns));
    longer := SaveFollows(sweep, Now(store), start, trace, memory, all);
    OneCall(store.turns);
    QuietTurn(store.table, store.turns);
    var saved := store.SaveCheckpoint(checkpoint);
    assert Now(store) == view;
    match saved
    case Done(_) => r := Completed(());
    case Lost => r := StoreFailed;
  }

  /** Processes the next batch and makes its end the checkpoint. */
  method RunBatch<R, V>(
    sweep: Sweep<R, V>, store: Store<R>, random: Randomness, report: SweepReport, after: Option<int>,
    ghost start: State<R>, ghost trace: seq<Event<R>>, ghost loaded: nat, ghost all: seq<Event<R>>,
    ghost before: seq<Turn<R>>, ghost from: nat)
    returns (r: SweepResult<Option<int>>, ghost longer: seq<Event<R>>, ghost memory: Worker<R>)
    requires sweep.batchSize > 0
    requires Orderly(before, store.turns, random.source, from, random.drawn, Draws(trace), false)
    requires Follows(sweep, Now(store), start, trace, Ready(after, report.View(), loaded), all)
    modifies store, random, report
    ensures Follows(sweep, Now(store), start, longer, memory, all)
    ensures match r
            case Completed(None) => memory.Finished? && memory.tally == report.View()
            case Completed(Some(last)) =>
              && memory.Ready? && memory == Ready(Some(last), report.View(), memory.loaded) && After(after, last)
              && (old(store.turns) == [] ==> last in store.table)
            case RowFailed(error) => memory.Failed? && memory.error == error
            case StoreFailed => memory.Down?
    ensures Orderly(before, store.turns, random.source, from, random.drawn, Draws(longer), r.StoreFailed?)
    ensures r.Completed? ==>
              store.loads == old(store.loads) + 1
              && store.saves == old(store.saves) + if r.value == None then 0 else 1
    ensures old(store.turns) == [] && r.Completed? ==>
              LoadsFrom(old(store.table.Keys), after, sweep.batchSize)
                == 1 + if r.value == None then 0 else LoadsFrom(old(store.table.Keys), r.value, sweep.batchSize)
    ensures old(store.turns) != [] ==> |store.turns| < |old(store.turns)|
    ensures old(store.turns) == [] ==> store.turns == [] && store.table.Keys == old(store.table.Keys)
  {
    r, longer, memory := ProcessBatch(sweep, store, random, report, after, start, trace, loaded, all, before, from);
    match r {
      case Completed(Some(checkpoint)) =>
        ghost var between, draws := store.turns, Draws(longer);
        var saved;
        saved, longer := SaveProgress(sweep, store, checkpoint, start, longer, memory, all);
        CallOrderly(before, between, store.turns, random.source, from, random.drawn, draws, saved.StoreFailed?);
        if saved.StoreFailed? {
          return StoreFailed, longer, Down;
        }
        memory := Ready(Some(checkpoint), memory.tally, memory.loaded);
      case _ =>
    }
  }

  /** A run's first call: the other writers, and the worker's start if it came to know the
      checkpoint. */
  lemma BeginFollows<R, V>(sweep: Sweep<R, V>, view: View<R>) returns (trace: seq<Event<R>>)
    requires forall i :: 0 <= i < |view.turns| ==> AllForeign(view.turns[i].others)
    ensures var turn := NextTurn(view.turns);
            Follows(sweep, View(Interfere(view.table, turn.others), view.checkpoint, LaterTurns(view.turns)),
                    Started(view.table, view.checkpoint), trace,
                    if turn.fault == NoFault then Ready(view.checkpoint, NO_ROWS, 0) else Down, Others(view.turns))
    ensures Draws(trace) == []
  {
    var start, all, turn := Started(view.table, view.checkpoint), Others(view.turns), NextTurn(view.turns);
    var between := View(Interfere(view.table, turn.others), view.checkpoint, LaterTurns(view.turns));
    var none: seq<Event<R>> := [];
    assert none + all == all && none + turn.others == turn.others;
    TurnFollows(sweep, view, start, none, Down, all);
    OthersDrawNothing(none, turn.others);
    trace := turn.others;
    if turn.fault == NoFault {
      BeginsFollow(sweep, between, start, trace, all);
      trace := trace + [Start(0)];
    }
  }

  lemma {:induction false} BeginsFollow<R, V>(
    sweep: Sweep<R, V>, view: View<R>, start: State<R>, trace: seq<Event<R>>, all: seq<Event<R>>)
    requires Follows(sweep, view, start, trace, Down, all) && AllForeign(trace)
    ensures Follows(sweep, view, start, trace + [Start(0)], Ready(view.checkpoint, NO_ROWS, 0), all)
    ensures Draws(trace + [Start(0)]) == Draws(trace)
  {
    StepFollows(sweep, view, start, trace, Down, all, Start(0));
    DrawsMore(trace, Start(0));
  }

  /** Reads the durable checkpoint a run resumes from. */
  method Resumed<R, V>(sweep: Sweep<R, V>, store: Store<R>)
    returns (r: SweepResult<Option<int>>, ghost trace: seq<Event<R>>)
    requires store.Valid()
    modifies store
    ensures Follows(sweep, Now(store), Started(old(store.table), old(store.checkpoint)), trace,
                    if r.Completed? then Ready(r.value, NO_ROWS, 0) else Down, Others(old(store.turns)))
    ensures r.Completed? ==> r.value == old(store.checkpoint)
    ensures !r.RowFailed? && Answered(old(store.turns), store.turns, r.StoreFailed?)
    ensures Draws(trace) == []
    ensures store.loads == old(store.loads) && store.saves == old(store.saves)
    ensures old(store.turns) == [] ==> store.turns == [] && store.table == old(store.table)
  {
    ghost var turn := NextTurn(store.turns);
    ghost var view := View(Interfere(store.table, turn.others), store.checkpoint, LaterTurns(store.turns));
    trace := BeginFollows(sweep, Now(store));
    OneCall(store.turns);
    QuietTurn(store.table, store.turns);
    var loaded := store.LoadCheckpoint();
    assert Now(store) == view;
    match loaded
    case Done(cursor) => r := Completed(cursor);
    case Lost => r := StoreFailed;
  }

  /** On a quiet store, how often a run has still to load. */
  ghost predicate StillLoads(quiet: bool, keys: set<int>, cursor: Option<int>, batchSize: nat, left: int)
    requires batchSize > 0
  {
    quiet ==> LoadsFrom(keys, cursor, batchSize) == left
  }

  /** One run, from the checkpoint it finds until nothing is left to load. The run is an
      execution of the protocol: `trace` leads from the table and checkpoint found to
      exactly the table and checkpoint the store ends with. */
  method Run<R, V>(sweep: Sweep<R, V>, store: Store<R>, random: Randomness)
    returns (r: SweepResult<SweepReport>, ghost trace: seq<Event<R>>)
    requires sweep.batchSize > 0 && store.Valid()
    modifies store, random
    ensures store.Valid()
    ensures var s := Execute(sweep.rules, sweep.batchSize, Started(old(store.table), old(store.checkpoint)), trace);
            && s.table == store.table && s.checkpoint == store.checkpoint
            && match r
               case Completed(report) => s.Of(0).Finished? && s.Of(0).tally == report.View()
               case RowFailed(error) => s.Of(0).Failed? && s.Of(0).error == error
               case StoreFailed => s.Of(0).Down?
    ensures ForeignEvents(trace) + Others(store.turns) == Others(old(store.turns))
    ensures OneWorker(trace, 0) && StartsOnce(trace)
    ensures Orderly(old(store.turns), store.turns, random.source, old(random.drawn), random.drawn, Draws(trace),
                    r.StoreFailed?)
    ensures r.Completed? ==> fresh(r.value)
    ensures r.Completed? ==> store.loads - old(store.loads) == store.saves - old(store.saves) + 1
    ensures r.Completed? && old(store.turns) == [] ==>
              store.loads - old(store.loads) == LoadsFrom(old(store.table.Keys), old(store.checkpoint), sweep.batchSize)
  {
    ghost var start, all := Started(store.table, store.checkpoint), Others(store.turns);
    ghost var before, from := store.turns, random.drawn;
    ghost var quiet, loads := store.turns == [], LoadsFrom(store.table.Keys, store.checkpoint, sweep.batchSize);
    var report := new SweepReport();
    var resumed;
    resumed, trace := Resumed(sweep, store);
    if resumed.StoreFailed? {
      return StoreFailed, trace;
    }
    var cursor := resumed.value;
    ghost var counted: nat := 0;
    while true
      invariant fresh(report)
      invariant quiet ==> store.turns == []
      invariant Follows(sweep, Now(store), start, trace, Ready(cursor, report.View(), counted), all)
      invariant Orderly(before, store.turns, random.source, from, random.drawn, Draws(trace), false)
      invariant store.loads - old(store.loads) == store.saves - old(store.saves)
      invariant StillLoads(quiet, store.table.Keys, cursor, sweep.batchSize, loads - (store.loads - old(store.loads)))
      decreases |store.turns|, KeysAfter(store.table, cursor)
    {
      ghost var turns, keys := store.turns, KeysAfter(store.table, cursor);
      var next;
      ghost var memory;
      next, trace, memory := RunBatch(sweep, store, random, report, cursor, start, trace, counted, all, before, from);
      match next {
        case RowFailed(error) => return RowFailed(error), trace;
        case StoreFailed => return StoreFailed, trace;
        case Completed(None) => return Completed(report), trace;
        case Completed(Some(checkpoint)) =>
          if turns == [] {
            assert checkpoint in keys && checkpoint !in KeysAfter(store.table, Some(checkpoint));
          }
          counted := memory.loaded;
          cursor := Some(checkpoint);
      }
    }
  }

  // ----- What runs leave -----

  lemma {:induction false} ForeignEventsInclude<R>(trace: seq<Event<R>>, i: nat)
    requires i < |trace| && IsForeign(trace[i])
    ensures trace[i] in ForeignEvents(trace)
    decreases |trace|
  {
    if i < |trace| - 1 {
      ForeignEventsInclude(trace[..|trace| - 1], i);
    }
  }

  /** On a store no one else writes to, a run meets no other writer. */
  lemma {:induction false} QuietRun<R>(trace: seq<Event<R>>)
    requires ForeignEvents(trace) == []
    ensures NoForeignEvents(trace)
  {
    forall i | 0 <= i < |trace|
      ensures !IsForeign(trace[i])
    {
      if IsForeign(trace[i]) {
        ForeignEventsInclude(trace, i);
      }
    }
  }

  /** A run among writers of current rows is one among timely writers. */
  lemma {:induction false} CurrentWritersAreTimely<R, V>(
    sweep: Sweep<R, V>, start: State<R>, trace: seq<Event<R>>, all: seq<Event<R>>)
    requires ForeignEvents(trace) <= all && CurrentWriters(sweep.rules, all)
    ensures CurrentWriters(sweep.rules, trace)
    ensures TimelyWriters(sweep.rules, sweep.batchSize, start, trace)
  {
    forall i | 0 <= i < |trace| && trace[i].Write?
      ensures IsCurrent(sweep.rules, trace[i].row)
    {
      ForeignEventsInclude(trace, i);
      var j :| 0 <= j < |ForeignEvents(trace)| && ForeignEvents(trace)[j] == trace[i];
      assert all[j].Write?;
    }
  }

  /** However a run ends, it leaves a true checkpoint for the next; and a run that
      completes leaves a table that verification finds terminal. `trace` is what `Run`
      returns, from the table and the checkpoint it found. */
  lemma {:induction false} RunLeavesTrueCheckpoint<R(!new), V>(
    sweep: Sweep<R, V>, table: Table<R>, checkpoint: Option<int>, trace: seq<Event<R>>)
    requires Lawful(sweep.rules) && sweep.batchSize > 0 && SweptTo(sweep.rules, table, checkpoint)
    requires TimelyWriters(sweep.rules, sweep.batchSize, Started(table, checkpoint), trace)
    ensures var s := Execute(sweep.rules, sweep.batchSize, Started(table, checkpoint), trace);
            && SweptTo(sweep.rules, s.table, s.checkpoint)
            && (s.Of(0).Finished? ==>
                  && Converged(sweep.rules, s.table)
                  && Verification(sweep.rules, s.table) == Ok(NO_ROWS.(current := |s.table|)))
  {
    var start := Started(table, checkpoint);
    var s := Execute(sweep.rules, sweep.batchSize, start, trace);
    StartedInv(sweep.rules, table, checkpoint);
    CheckpointStaysTrue(sweep.rules, sweep.batchSize, start, trace);
    if s.Of(0).Finished? {
      FinishedConverges(sweep.rules, sweep.batchSize, start, trace, 0);
      TerminalExactly(sweep.rules, s.table);
    }
  }
}
