/** Runs that go on from one another, and the verification that ends a migration
    (docs/operations.md): what an operator does with the driver. */
module SweepRuns {
  import opened SweepDriver
  import opened SweepProtocol
  import opened SweepReports
  import opened SweepSafety
  import opened SweepScan
  import opened SweepStores
  import opened SweepTheorems
  import opened SweepVerifier
  import opened Wrappers

  /** A table and its durable checkpoint after a sequence of runs, each resuming from what
      the one before it left. */
  function AfterRuns<R, V>(
    sweep: Sweep<R, V>, table: Table<R>, checkpoint: Option<int>, runs: seq<seq<Event<R>>>): State<R>
  {
    if runs == [] then Started(table, checkpoint) else
    var s := AfterRuns(sweep, table, checkpoint, runs[..|runs| - 1]);
    Execute(sweep.rules, sweep.batchSize, Started(s.table, s.checkpoint), runs[|runs| - 1])
  }

  ghost predicate TimelyRuns<R, V>(
    sweep: Sweep<R, V>, table: Table<R>, checkpoint: Option<int>, runs: seq<seq<Event<R>>>)
  {
    runs == [] ||
    var s := AfterRuns(sweep, table, checkpoint, runs[..|runs| - 1]);
    && TimelyRuns(sweep, table, checkpoint, runs[..|runs| - 1])
    && TimelyWriters(sweep.rules, sweep.batchSize, Started(s.table, s.checkpoint), runs[|runs| - 1])
  }

  /** After any number of runs, each of which may have crashed, lost its store or stopped
      at a row: the checkpoint is true, and if the last one completed, verification is
      terminal. */
  lemma {:induction false} ResumedRunsConverge<R(!new), V>(
    sweep: Sweep<R, V>, table: Table<R>, checkpoint: Option<int>, runs: seq<seq<Event<R>>>)
    requires Lawful(sweep.rules) && sweep.batchSize > 0 && SweptTo(sweep.rules, table, checkpoint)
    requires TimelyRuns(sweep, table, checkpoint, runs)
    ensures var s := AfterRuns(sweep, table, checkpoint, runs);
            && SweptTo(sweep.rules, s.table, s.checkpoint)
            && (s.Of(0).Finished? ==>
                  && Converged(sweep.rules, s.table)
                  && Verification(sweep.rules, s.table) == Ok(NO_ROWS.(current := |s.table|)))
    decreases |runs|
  {
    if runs != [] {
      var s := AfterRuns(sweep, table, checkpoint, runs[..|runs| - 1]);
      ResumedRunsConverge(sweep, table, checkpoint, runs[..|runs| - 1]);
      RunLeavesTrueCheckpoint(sweep, s.table, s.checkpoint, runs[|runs| - 1]);
    }
  }

  // ----- Runs, then a verification -----

  /** How many runs of a chain ended with their store failing. */
  function LostRuns<R, V>(
    sweep: Sweep<R, V>, table: Table<R>, checkpoint: Option<int>, runs: seq<seq<Event<R>>>): nat
  {
    if runs == [] then 0
    else LostRuns(sweep, table, checkpoint, runs[..|runs| - 1])
         + if AfterRuns(sweep, table, checkpoint, runs).Of(0).Down? then 1 else 0
  }

  /** How many runs of a chain stopped at a row. */
  function StoppedRuns<R, V>(
    sweep: Sweep<R, V>, table: Table<R>, checkpoint: Option<int>, runs: seq<seq<Event<R>>>): nat
  {
    if runs == [] then 0
    else StoppedRuns(sweep, table, checkpoint, runs[..|runs| - 1])
         + if AfterRuns(sweep, table, checkpoint, runs).Of(0).Failed? then 1 else 0
  }

  /** A run stopped at a row that its planner refused. */
  ghost predicate Refused<R, V>(sweep: Sweep<R, V>, last: Worker<R>) {
    && last.Failed? && last.done < |last.batch|
    && exists entropy :: sweep.rules.plan(last.batch[last.done].row, entropy) == Err(last.error)
  }

  /** Runs until a run completes, at most `attempts` times, as an operator does after a
      crash, a store failure, or a row put right: each run goes on from what the one before
      it left, whoever else writes. Every run that did not complete was refused a row or
      used up a failure of the store. */
  method RunRepeatedly<R, V>(sweep: Sweep<R, V>, store: Store<R>, random: Randomness, attempts: nat)
    returns (completed: bool, ghost runs: seq<seq<Event<R>>>)
    requires sweep.batchSize > 0 && store.Valid()
    modifies store, random
    ensures store.Valid()
    ensures |runs| <= attempts && (!completed ==> |runs| == attempts)
    ensures RunsLeadTo(sweep, old(store.table), old(store.checkpoint), runs, store, completed)
    ensures Faults(old(store.turns))
         == Faults(store.turns) + LostRuns(sweep, old(store.table), old(store.checkpoint), runs)
    ensures !completed ==>
              attempts == LostRuns(sweep, old(store.table), old(store.checkpoint), runs)
                          + StoppedRuns(sweep, old(store.table), old(store.checkpoint), runs)
    ensures CurrentWriters(sweep.rules, Others(old(store.turns))) ==>
              && TimelyRuns(sweep, old(store.table), old(store.checkpoint), runs)
              && CurrentWriters(sweep.rules, Others(store.turns))
  {
    ghost var table, checkpoint, all := store.table, store.checkpoint, Others(store.turns);
    completed, runs := false, [];
    var i := 0;
    while i < attempts && !completed
      invariant store.Valid() && |runs| == i <= attempts
      invariant RunsLeadTo(sweep, table, checkpoint, runs, store, completed)
      invariant Faults(old(store.turns)) == Faults(store.turns) + LostRuns(sweep, table, checkpoint, runs)
      invariant !completed ==>
                  i == LostRuns(sweep, table, checkpoint, runs) + StoppedRuns(sweep, table, checkpoint, runs)
      invariant CurrentWriters(sweep.rules, all) ==>
                  TimelyRuns(sweep, table, checkpoint, runs) && CurrentWriters(sweep.rules, Others(store.turns))
      decreases attempts - i
    {
      ghost var before, turns := Others(store.turns), store.turns;
      var r;
      ghost var trace;
      r, trace := Run(sweep, store, random);
      OneMoreRun(sweep, table, checkpoint, runs, trace, before, Others(store.turns));
      FaultsAnswered(turns, store.turns, r.StoreFailed?);
      completed, runs, i := r.Completed?, runs + [trace], i + 1;
    }
  }

  /** The chain leads to what the store holds, and its last run ended as `completed` says. */
  ghost predicate RunsLeadTo<R, V>(
    sweep: Sweep<R, V>, table: Table<R>, checkpoint: Option<int>, runs: seq<seq<Event<R>>>, store: Store<R>,
    completed: bool)
    reads store
  {
    var s := AfterRuns(sweep, table, checkpoint, runs);
    && s.table == store.table && s.checkpoint == store.checkpoint
    && if completed then s.Of(0).Finished? else s.Of(0).Down? || Refused(sweep, s.Of(0))
  }

  lemma {:induction false} OneMoreRun<R, V>(
    sweep: Sweep<R, V>, table: Table<R>, checkpoint: Option<int>, runs: seq<seq<Event<R>>>, trace: seq<Event<R>>,
    before: seq<Event<R>>, rest: seq<Event<R>>)
    requires ForeignEvents(trace) + rest == before
    ensures var s, more := AfterRuns(sweep, table, checkpoint, runs), runs + [trace];
            var t := Execute(sweep.rules, sweep.batchSize, Started(s.table, s.checkpoint), trace);
            && AfterRuns(sweep, table, checkpoint, more) == t
            && LostRuns(sweep, table, checkpoint, more)
               == LostRuns(sweep, table, checkpoint, runs) + (if t.Of(0).Down? then 1 else 0)
            && StoppedRuns(sweep, table, checkpoint, more)
               == StoppedRuns(sweep, table, checkpoint, runs) + (if t.Of(0).Failed? then 1 else 0)
            && (t.Of(0).Failed? ==> Refused(sweep, t.Of(0)))
            && (TimelyRuns(sweep, table, checkpoint, runs) && CurrentWriters(sweep.rules, before) ==>
                  TimelyRuns(sweep, table, checkpoint, more) && CurrentWriters(sweep.rules, rest))
  {
    var s := AfterRuns(sweep, table, checkpoint, runs);
    assert (runs + [trace])[..|runs|] == runs;
    FailureIsRefused(sweep.rules, sweep.batchSize, Started(s.table, s.checkpoint), trace, 0);
    if CurrentWriters(sweep.rules, before) {
      CurrentWritersAreTimely(sweep, Started(s.table, s.checkpoint), trace, before);
      RestOfCurrentWriters(sweep.rules, ForeignEvents(trace), rest);
    }
  }

  lemma RestOfCurrentWriters<R, V>(rules: RowRules<R, V>, done: seq<Event<R>>, rest: seq<Event<R>>)
    requires CurrentWriters(rules, done + rest)
    ensures CurrentWriters(rules, rest)
  {
    assert forall i :: 0 <= i < |rest| ==> rest[i] == (done + rest)[|done| + i];
  }

  /** The whole procedure: runs until one completes, then a verification. Among writers of
      current rows the checkpoint stays true, a completed run leaves every row current, and
      the report that follows is terminal, though they were at work all along. */
  method RunThenVerify<R(!new), V>(sweep: Sweep<R, V>, store: Store<R>, random: Randomness, attempts: nat)
    returns (completed: bool, r: SweepResult<SweepReport>, ghost runs: seq<seq<Event<R>>>)
    requires Lawful(sweep.rules) && sweep.batchSize > 0 && store.Valid()
    requires SweptTo(sweep.rules, store.table, store.checkpoint)
    requires CurrentWriters(sweep.rules, Others(store.turns))
    modifies store, random
    ensures completed ==> Converged(sweep.rules, store.table) && !r.RowFailed?
    ensures completed && r.Completed? ==> r.value.View().IsTerminal()
    ensures r.Completed? && r.value.View().IsTerminal() ==> Converged(sweep.rules, store.table)
    ensures !completed && Faults(old(store.turns)) < attempts ==>
              StoppedRuns(sweep, old(store.table), old(store.checkpoint), runs) > 0
    ensures Faults(old(store.turns)) == 0 ==> !r.StoreFailed?
  {
    ghost var table, checkpoint := store.table, store.checkpoint;
    ghost var others, seen;
    completed, runs := RunRepeatedly(sweep, store, random, attempts);
    ResumedRunsConverge(sweep, table, checkpoint, runs);
    ghost var between := store.turns;
    r, others, seen := Verify(sweep, store);
    FaultsAnswered(between, store.turns, r.StoreFailed?);
  }
}
