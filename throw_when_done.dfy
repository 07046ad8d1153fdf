/**
 * `throwWhenDone(collection, throwFunction)`: an iterator that passes pulls
 * through to the wrapped one until it reports exhaustion, and from then on
 * calls `throwFunction` on every pull instead.
 */
module ThrowWhenDoneOperator {
  import opened Protocol

  /** What the default `throwFunction` throws. */
  function IteratorIsDone(): (e: Error)
    ensures e.name == "TypeError" && e.message == "Iterator is done!"
  {
    TypeError("Iterator is done!")
  }

  /**
   * The returned iterator object and the `done` flag its `next()` closes over.
   * `throwFunction` is typed `() => never`: it always throws, so it is modelled
   * by the exception it throws.
   */
  class ThrowWhenDone<T> {
    const source: Cursor<T>
    const throwFunction: () -> Error
    var done: bool

    constructor (collection: Cursor<T>, throwFunction: () -> Error := () => IteratorIsDone())
      ensures source == collection && this.throwFunction == throwFunction
      ensures !done
    {
      source := collection;
      this.throwFunction := throwFunction;
      done := false;
    }

    /**
     * `next()`. Before exhaustion it returns exactly what the wrapped iterator
     * returns, the exhausted result included, and sets the flag on that result.
     * If the wrapped `next()` throws, the exception passes through and the flag
     * is left as it was. Once the flag is set, the wrapped iterator is not
     * touched again and `throwFunction` throws.
     */
    method Next() returns (r: Result<IterResult<T>>)
      requires source.Valid()
      modifies this, source
      ensures source.Valid()
      ensures old(done) ==> && r == Failure(throwFunction())
                            && done
                            && source.pos == old(source.pos)
                            && source.pulls == old(source.pulls)
      ensures !old(done) ==> && r == old(source.Upcoming())
                             && done == (r.Success? && r.value.Done?)
                             && source.pulls == old(source.pulls) + 1
                             && source.pos == (if old(source.pos) < |source.items|
                                                 then old(source.pos) + 1 else old(source.pos))
    {
      if done {
        return Failure(throwFunction());
      }
      r := source.Next();
      if r.Failure? {
        return;
      }
      done := r.value.Done?;
    }
  }

  /**
   * `Array.from(guarded)`: pulls until the guard reports exhaustion or throws.
   * On a fresh guard this collects the wrapped iterator's remaining elements;
   * on a guard that is already done the first pull throws.
   */
  method ToArray<T>(g: ThrowWhenDone<T>) returns (out: seq<T>, outcome: Outcome)
    requires g.source.Valid()
    modifies g, g.source
    ensures g.source.Valid()
    ensures old(g.done) ==> && out == []
                            && outcome == Threw(g.throwFunction())
                            && g.done
                            && g.source.pos == old(g.source.pos)
                            && g.source.pulls == old(g.source.pulls)
    ensures !old(g.done) ==> && out == old(g.source.Remaining())
                             && outcome == g.source.EndOutcome()
                             && g.done == g.source.fault.None?
                             && g.source.pos == |g.source.items|
                             && g.source.pulls == old(g.source.pulls) + |old(g.source.Remaining())| + 1
  {
    out := [];
    if g.done {
      var r := g.Next();
      return [], Threw(r.error);
    }
    ghost var rem := g.source.Remaining();
    ghost var start := g.source.pos;
    ghost var pulls0 := g.source.pulls;
    while true
      invariant g.source.Valid() && !g.done
      invariant start <= g.source.pos
      invariant rem == g.source.items[start..]
      invariant out == rem[..g.source.pos - start]
      invariant g.source.pulls == pulls0 + |out|
      decreases |g.source.items| - g.source.pos
    {
      var r := g.Next();
      if r.Failure? {
        return out, Threw(r.error);
      }
      if r.value.Done? {
        return out, Completed;
      }
      out := out + [r.value.value];
    }
  }

  /**
   * Three drains of one guarded iterator over `[1, 2, 3]`: the first yields the
   * elements, the second and third throw the default error, and the flag reads
   * true before and after each of those.
   */
  method DrainGuardedThreeTimes() returns (first: seq<int>, second: Outcome, third: Outcome,
                                           doneBefore: bool, doneAfter: bool)
    ensures first == [1, 2, 3]
    ensures second == Threw(IteratorIsDone()) && third == Threw(IteratorIsDone())
    ensures doneBefore && doneAfter
  {
    var items := new Cursor([1, 2, 3], None);
    var g := new ThrowWhenDone(items);
    var o;
    first, o := ToArray(g);
    doneBefore := g.done;
    var out;
    out, second := ToArray(g);
    out, third := ToArray(g);
    doneAfter := g.done;
  }
}
