/** What the trace of a run may be beyond an execution of the protocol: the worker starts
    once, and each planned row draws its own randomness, in order. */
module SweepTraces {
  import opened Envelopes
  import opened SweepProtocol
  import opened SweepStores

  /** The worker starts at most once, before anything else it does: a run neither retries
      nor begins anew. */
  ghost predicate StartsOnce<R>(trace: seq<Event<R>>) {
    forall i :: 0 <= i < |trace| && trace[i].Start? ==> AllForeign(trace[..i])
  }

  lemma StartsOnceMore<R>(trace: seq<Event<R>>, others: seq<Event<R>>)
    requires StartsOnce(trace) && AllForeign(others)
    ensures StartsOnce(trace + others)
  {
    assert forall i :: |trace| <= i < |trace + others| ==> IsForeign((trace + others)[i]);
    assert forall i :: 0 <= i < |trace| ==> (trace + others)[..i] == trace[..i];
  }

  // ----- Randomness -----

  /** The randomness of the rows planned, in order. */
  function Draws<R>(trace: seq<Event<R>>): seq<Entropy> {
    if trace == [] then []
    else Draws(trace[..|trace| - 1])
         + if trace[|trace| - 1].Process? then [trace[|trace| - 1].entropy] else []
  }

  lemma {:induction false} DrawsMore<R>(trace: seq<Event<R>>, event: Event<R>)
    ensures Draws(trace + [event]) == Draws(trace) + if event.Process? then [event.entropy] else []
  {
    assert (trace + [event])[..|trace|] == trace;
  }

  lemma {:induction false} OthersDrawNothing<R>(trace: seq<Event<R>>, others: seq<Event<R>>)
    requires AllForeign(others)
    ensures Draws(trace + others) == Draws(trace)
    decreases |others|
  {
    if others == [] {
      assert trace + others == trace;
    } else {
      var before, last := others[..|others| - 1], others[|others| - 1];
      assert IsForeign(last) && AllForeign(before);
      OthersDrawNothing(trace, before);
      assert trace + others == (trace + before) + [last];
      DrawsMore(trace + before, last);
    }
  }

  /** `draws` is what a source gave from its `from`th to before its `to`th draw. */
  ghost predicate Sourced(source: nat -> Entropy, from: nat, to: nat, draws: seq<Entropy>) {
    && from + |draws| == to
    && forall i :: 0 <= i < |draws| ==> draws[i] == source(from + i)
  }

  /** The same, but of a run that lost its store the last draw may have come to nothing. */
  ghost predicate Drawn(source: nat -> Entropy, from: nat, to: nat, draws: seq<Entropy>, lost: bool) {
    Sourced(source, from, to, draws) || (lost && to > 0 && Sourced(source, from, to - 1, draws))
  }

  /** Some calls and draws of a run: no call failed but the last if the run failed, and the
      randomness came in order. */
  ghost predicate Orderly<R>(
    before: seq<Turn<R>>, after: seq<Turn<R>>, source: nat -> Entropy, from: nat, to: nat, draws: seq<Entropy>,
    failed: bool)
  {
    Answered(before, after, failed) && Drawn(source, from, to, draws, failed)
  }

  /** One more row: a draw, and a store call if it is rewritten. */
  lemma {:induction false} RowOrderly<R>(
    before: seq<Turn<R>>, between: seq<Turn<R>>, after: seq<Turn<R>>, source: nat -> Entropy, from: nat, to: nat,
    draws: seq<Entropy>, more: seq<Entropy>, failed: bool)
    requires Orderly(before, between, source, from, to, draws, false) && Answered(between, after, failed)
    requires more == draws + [source(to)] || (failed && more == draws)
    ensures Orderly(before, after, source, from, to + 1, more, failed)
  {
    MoreCalls(before, between, after, failed);
  }

  /** One more call that draws nothing. */
  lemma {:induction false} CallOrderly<R>(
    before: seq<Turn<R>>, between: seq<Turn<R>>, after: seq<Turn<R>>, source: nat -> Entropy, from: nat, to: nat,
    draws: seq<Entropy>, failed: bool)
    requires Orderly(before, between, source, from, to, draws, false) && Answered(between, after, failed)
    ensures Orderly(before, after, source, from, to, draws, failed)
  {
    MoreCalls(before, between, after, failed);
  }

  /** From a source that never repeats itself, no two rows of a run are planned with the
      same randomness. */
  lemma DrawsAreDistinct(source: nat -> Entropy, from: nat, to: nat, draws: seq<Entropy>, lost: bool, i: nat, j: nat)
    requires Drawn(source, from, to, draws, lost)
    requires forall m: nat, n: nat :: m != n ==> source(m) != source(n)
    requires i < j < |draws|
    ensures draws[i] != draws[j]
  {
    assert source(from + i) != source(from + j);
  }
}
