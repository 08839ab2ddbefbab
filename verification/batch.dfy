/**
 * The shape of the booking loop, independent of what one step does: the steps
 * run over the items in order, the first failing step ends the run, and the
 * results of the steps before it are kept.
 */
module Batch {
  import opened Wrappers

  /** The results of the steps that succeeded, in item order, and the error that ended the run, if any. */
  datatype Run<B, E> = Run(done: seq<B>, failure: Option<E>)

  /** `done` are the results of the steps on the items from position `i` on, one per item, in order. */
  ghost predicate Processed<S, B, E>(items: seq<S>, i: nat, step: (nat, S) -> Result<B, E>, done: seq<B>)
  {
    && i + |done| <= |items|
    && forall k :: 0 <= k < |done| ==> step(i + k, items[i + k]) == Ok(done[k])
  }

  /** The item right after the results `done` (taken from position `i` on) exists and its step fails with `e`. */
  ghost predicate FailsAfter<S, B, E>(items: seq<S>, i: nat, step: (nat, S) -> Result<B, E>, done: seq<B>, e: E)
  {
    var j := i + |done|;
    j < |items| && step(j, items[j]) == Err(e)
  }

  lemma ProcessedCons<S, B, E>(items: seq<S>, i: nat, step: (nat, S) -> Result<B, E>, b: B, rest: seq<B>)
    requires i < |items| && step(i, items[i]) == Ok(b)
    requires Processed(items, i + 1, step, rest)
    ensures Processed(items, i, step, [b] + rest)
  {
    var done := [b] + rest;
    forall k | 0 <= k < |done|
      ensures step(i + k, items[i + k]) == Ok(done[k])
    {
      if k > 0 {
        assert done[k] == rest[k - 1] && i + k == (i + 1) + (k - 1);
      }
    }
  }

  lemma FailsAfterCons<S, B, E>(items: seq<S>, i: nat, step: (nat, S) -> Result<B, E>, b: B, rest: seq<B>, e: E)
    requires FailsAfter(items, i + 1, step, rest, e)
    ensures FailsAfter(items, i, step, [b] + rest, e)
  {
    assert i + |[b] + rest| == (i + 1) + |rest|;
  }

  /** The loop from position `i` on. */
  function RunFrom<S, B, E>(items: seq<S>, i: nat, step: (nat, S) -> Result<B, E>): (r: Run<B, E>)
    requires i <= |items|
    ensures Processed(items, i, step, r.done)
    ensures r.failure.None? <==> i + |r.done| == |items|
    ensures r.failure.Some? ==> FailsAfter(items, i, step, r.done, r.failure.value)
    decreases |items| - i
  {
    if i == |items| then Run([], None)
    else
      match step(i, items[i])
      case Err(e) => Run([], Some(e))
      case Ok(b) =>
        var rest := RunFrom(items, i + 1, step);
        ProcessedCons(items, i, step, b, rest.done);
        if rest.failure.Some? then
          FailsAfterCons(items, i, step, b, rest.done, rest.failure.value);
          Run([b] + rest.done, rest.failure)
        else
          Run([b] + rest.done, rest.failure)
  }

  /** A failing step ends the run with its error and no further results. */
  lemma RunStops<S, B, E>(items: seq<S>, i: nat, step: (nat, S) -> Result<B, E>, e: E)
    requires i < |items| && step(i, items[i]) == Err(e)
    ensures RunFrom(items, i, step) == Run([], Some(e))
  {
  }

  /** A successful step puts its result in front of those of the rest of the run. */
  lemma RunContinues<S, B, E>(items: seq<S>, i: nat, step: (nat, S) -> Result<B, E>, b: B)
    requires i < |items| && step(i, items[i]) == Ok(b)
    ensures var rest := RunFrom(items, i + 1, step);
            RunFrom(items, i, step) == Run([b] + rest.done, rest.failure)
  {
  }

  /** When the step on item `k` is the first to fail from `i` on, the run stops there with its error. */
  lemma {:induction false} StopsAt<S, B, E>(items: seq<S>, i: nat, k: nat, step: (nat, S) -> Result<B, E>, e: E)
    requires i <= k < |items|
    requires forall j :: i <= j < k ==> step(j, items[j]).Ok?
    requires step(k, items[k]) == Err(e)
    ensures var r := RunFrom(items, i, step);
            r.failure == Some(e) && i + |r.done| == k
    decreases k - i
  {
    if i == k {
      RunStops(items, i, step, e);
    } else {
      var p := step(i, items[i]);
      assert p.Ok?;
      RunContinues(items, i, step, p.value);
      StopsAt(items, i + 1, k, step, e);
    }
  }

  lemma ProcessedTail<S, B, E>(items: seq<S>, i: nat, step: (nat, S) -> Result<B, E>, done: seq<B>)
    requires Processed(items, i, step, done) && |done| > 0
    ensures Processed(items, i + 1, step, done[1..])
  {
    forall k | 0 <= k < |done| - 1
      ensures step((i + 1) + k, items[(i + 1) + k]) == Ok(done[1..][k])
    {
      assert step(i + (k + 1), items[i + (k + 1)]) == Ok(done[k + 1]);
    }
  }

  lemma FailsAfterTail<S, B, E>(items: seq<S>, i: nat, step: (nat, S) -> Result<B, E>, done: seq<B>, e: E)
    requires FailsAfter(items, i, step, done, e) && |done| > 0
    ensures FailsAfter(items, i + 1, step, done[1..], e)
  {
    assert (i + 1) + |done[1..]| == i + |done|;
  }

  /**
   * The converse of the contract of `RunFrom` for a run that fails: results
   * that match the steps from `i` on, followed by a step failing with `e`, are
   * exactly what the run returns.
   */
  lemma {:induction false} FailedRunCharacterised<S, B, E>(items: seq<S>, i: nat, step: (nat, S) -> Result<B, E>,
                                                           done: seq<B>, e: E)
    requires Processed(items, i, step, done)
    requires FailsAfter(items, i, step, done, e)
    ensures RunFrom(items, i, step) == Run(done, Some(e))
    decreases |done|
  {
    if |done| == 0 {
      RunStops(items, i, step, e);
    } else {
      assert step(i + 0, items[i + 0]) == Ok(done[0]);
      RunContinues(items, i, step, done[0]);
      ProcessedTail(items, i, step, done);
      FailsAfterTail(items, i, step, done, e);
      FailedRunCharacterised(items, i + 1, step, done[1..], e);
      assert [done[0]] + done[1..] == done;
    }
  }

  /** The same for a run that completes: results matching every step from `i` on are what the run returns. */
  lemma {:induction false} CompleteRunCharacterised<S, B, E>(items: seq<S>, i: nat, step: (nat, S) -> Result<B, E>,
                                                             done: seq<B>)
    requires Processed(items, i, step, done) && i + |done| == |items|
    ensures RunFrom(items, i, step) == Run(done, None)
    decreases |done|
  {
    if |done| > 0 {
      assert step(i + 0, items[i + 0]) == Ok(done[0]);
      RunContinues(items, i, step, done[0]);
      ProcessedTail(items, i, step, done);
      CompleteRunCharacterised(items, i + 1, step, done[1..]);
      assert [done[0]] + done[1..] == done;
    }
  }

  /**
   * A run that produced `done` and then failed with `e` reads only the items
   * up to the failing one, so any item list that agrees there runs the same way.
   */
  lemma SamePrefixSameRun<S, B, E>(items: seq<S>, items': seq<S>, i: nat, step: (nat, S) -> Result<B, E>,
                                   done: seq<B>, e: E)
    requires Processed(items, i, step, done)
    requires FailsAfter(items, i, step, done, e)
    requires var n := i + |done|; n < |items'| && forall j :: 0 <= j <= n ==> items'[j] == items[j]
    ensures Processed(items', i, step, done)
    ensures FailsAfter(items', i, step, done, e)
  {
    forall k | 0 <= k < |done|
      ensures step(i + k, items'[i + k]) == Ok(done[k])
    {
      assert items'[i + k] == items[i + k];
    }
  }

  /**
   * Only the items up to the first failing one are ever looked at: an item
   * list that agrees with `items` that far gives the same run.
   */
  lemma LaterItemsIgnored<S, B, E>(items: seq<S>, items': seq<S>, i: nat, step: (nat, S) -> Result<B, E>)
    requires i <= |items| && RunFrom(items, i, step).failure.Some?
    requires var n := i + |RunFrom(items, i, step).done|;
             n < |items'| && forall j :: 0 <= j <= n ==> items'[j] == items[j]
    ensures RunFrom(items', i, step) == RunFrom(items, i, step)
  {
    var r := RunFrom(items, i, step);
    SamePrefixSameRun(items, items', i, step, r.done, r.failure.value);
    FailedRunCharacterised(items', i, step, r.done, r.failure.value);
  }
}
