/**
 * `forEach(collection, iteratee)`: drains a collection, calling `iteratee` on
 * every element.
 */
module ForEachOperator {
  import opened Protocol

  /**
   * The draining loop. `calls` lists the arguments `iteratee` receives, in
   * order; what the iteratee does with them is outside the model. An exception
   * from the collection's `next()` ends the loop and propagates.
   */
  method ForEach<T>(collection: Cursor<T>) returns (calls: seq<T>, outcome: Outcome)
    requires collection.Valid()
    modifies collection
    ensures collection.Valid()
    ensures calls == old(collection.Remaining())
    ensures outcome == collection.EndOutcome()
    ensures collection.pos == |collection.items|
    ensures collection.pulls == old(collection.pulls) + |old(collection.Remaining())| + 1
  {
    ghost var rem := collection.Remaining();
    ghost var start := collection.pos;
    ghost var pulls0 := collection.pulls;
    calls := [];
    while true
      invariant collection.Valid() && start <= collection.pos
      invariant rem == collection.items[start..]
      invariant calls == rem[..collection.pos - start]
      invariant collection.pulls == pulls0 + |calls|
      decreases |collection.items| - collection.pos
    {
      var result := collection.Next();
      if result.Failure? {
        return calls, Threw(result.error);
      }
      if result.value.Done? {
        break;
      }
      calls := calls + [result.value.value];
    }
    outcome := Completed;
  }
}
