/**
 * `done(collection, doneCallback)`: a generator that yields every element of
 * the collection and calls `doneCallback` when the collection reports
 * exhaustion.
 */
module DoneOperator {
  import opened Protocol

  /**
   * The generator driven by a consumer that asks it for at most
   * `consumerPulls` values: the run stops when the consumer has received that
   * many (the generator then stays suspended at its `yield` and never resumes),
   * when the collection is exhausted, or when its `next()` throws.
   * `callbackCalls` counts the invocations of `doneCallback`.
   */
  method Done<T>(collection: Cursor<T>, consumerPulls: nat)
    returns (yielded: seq<T>, callbackCalls: nat, outcome: Outcome)
    requires collection.Valid()
    modifies collection
    ensures collection.Valid()
    ensures var rem := old(collection.Remaining());
            var n := |rem|;
            && yielded == rem[..if consumerPulls < n then consumerPulls else n]
            && collection.pos == old(collection.pos) + |yielded|
            && collection.pulls == old(collection.pulls) + (if consumerPulls <= n then consumerPulls else n + 1)
            && callbackCalls == (if consumerPulls > n && collection.fault.None? then 1 else 0)
            && outcome == (if consumerPulls > n then collection.EndOutcome() else Completed)
  {
    ghost var rem := collection.Remaining();
    ghost var start := collection.pos;
    ghost var pulls0 := collection.pulls;
    yielded, callbackCalls := [], 0;
    while true
      invariant collection.Valid() && start <= collection.pos
      invariant rem == collection.items[start..]
      invariant yielded == rem[..collection.pos - start]
      invariant |yielded| <= consumerPulls
      invariant collection.pulls == pulls0 + |yielded|
      decreases |collection.items| - collection.pos
    {
      if |yielded| == consumerPulls {
        break;
      }
      var result := collection.Next();
      if result.Failure? {
        return yielded, callbackCalls, Threw(result.error);
      }
      if result.value.Done? {
        callbackCalls := callbackCalls + 1;
        break;
      }
      yielded := yielded + [result.value.value];
    }
    outcome := Completed;
  }
}
