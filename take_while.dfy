/**
 * The `takeWhile` generator: yields the elements of a collection until the
 * first one that fails the predicate, and stops pulling there.
 */
module TakeWhileOperator {
  import opened Protocol
  import opened Prefixes

  /**
   * The arguments the predicate of `takeWhile` receives, in order, when the
   * generator drains `rem`: every element up to and including the first that
   * fails, and, when none fails and the collection ends normally, the value of
   * the exhausted result, `undefined` (`None`).
   */
  ghost function PredicateArguments<T>(rem: seq<T>, pred: T -> bool, fault: Option<Error>): seq<Option<T>> {
    var k := FirstFailure(rem, pred);
    if k < |rem| then Somes(rem[..k + 1]) else Somes(rem) + (if fault.None? then [None] else [])
  }

  /**
   * When every element passes and the collection ends normally, the predicate
   * is called once more, on `undefined`: a predicate that reads a property of
   * its argument throws there, after every element was accepted.
   */
  lemma ExhaustionReachesPredicate<T>(rem: seq<T>, pred: T -> bool)
    requires forall i :: 0 <= i < |rem| ==> pred(rem[i])
    ensures |PredicateArguments(rem, pred, None)| == |rem| + 1
    ensures PredicateArguments(rem, pred, None)[|rem|] == None
  {
    assert FirstFailure(rem, pred) == |rem|;
  }

  /** `takeWhile([1], (x) => x < 5)`: the predicate receives `1`, then `undefined`. */
  lemma UndefinedReachesPredicateExample()
    ensures PredicateArguments([1], (x: int) => x < 5, None) == [Some(1), None]
  {
    var pred := (x: int) => x < 5;
    assert FirstFailure([1], pred) == 1 by {
      assert pred([1][0]);
    }
  }

  /**
   * Runs the generator to completion (as `Array.from` does) and returns what it
   * yielded and how it ended. `evaluated` lists the arguments the predicate
   * received, in order: the predicate sees the value of every pulled result,
   * including the final exhausted one, whose value is `undefined` (`None`).
   */
  method TakeWhile<T>(collection: Cursor<T>, pred: T -> bool)
    returns (yielded: seq<T>, outcome: Outcome, ghost evaluated: seq<Option<T>>)
    requires collection.Valid()
    modifies collection
    ensures collection.Valid()
    ensures var rem := old(collection.Remaining());
            var k := FirstFailure(rem, pred);
            && yielded == PassingPrefix(rem, pred)
            && collection.pulls == old(collection.pulls) + k + 1
            && evaluated == PredicateArguments(rem, pred, collection.fault)
            && (k < |rem| ==>
                  && collection.pos == old(collection.pos) + k + 1
                  && outcome == Completed)
            && (k == |rem| ==>
                  && collection.pos == |collection.items|
                  && outcome == collection.EndOutcome())
  {
    ghost var rem := collection.Remaining();
    ghost var start := collection.pos;
    ghost var pulls0 := collection.pulls;
    yielded, evaluated := [], [];
    var done := false;
    while !done
      invariant collection.Valid() && start <= collection.pos
      invariant rem == collection.items[start..]
      invariant |yielded| <= |rem| && yielded == rem[..|yielded|]
      invariant forall i :: 0 <= i < |yielded| ==> pred(rem[i])
      invariant !done ==>
                  && collection.pos == start + |yielded|
                  && collection.pulls == pulls0 + |yielded|
                  && evaluated == Somes(yielded)
      invariant done ==>
                  && collection.pulls == pulls0 + |yielded| + 1
                  && ((&& |yielded| < |rem|
                       && !pred(rem[|yielded|])
                       && collection.pos == start + |yielded| + 1
                       && evaluated == Somes(rem[..|yielded| + 1]))
                      || (&& |yielded| == |rem|
                          && collection.pos == |collection.items|
                          && collection.fault.None?
                          && evaluated == Somes(rem) + [None]))
      decreases |collection.items| - collection.pos, !done
    {
      var result := collection.Next();
      if result.Failure? {
        outcome := Threw(result.error);
        return;
      }
      // The predicate is applied to `result.value` before `done` is looked at.
      evaluated := evaluated + [if result.value.Item? then Some(result.value.value) else None];
      done := result.value.Done? || !pred(result.value.value);
      if !done {
        yielded := yielded + [result.value.value];
      } else if result.value.Item? {
        assert rem[..|yielded| + 1] == yielded + [result.value.value];
      }
    }
    outcome := Completed;
  }

  /**
   * `takeWhile` as its type promises: the predicate receives only values of the
   * collection, because `done` is looked at first. The yielded elements and the
   * pulls are those of the generator as written.
   */
  method TakeWhileCheckingDone<T>(collection: Cursor<T>, pred: T -> bool)
    returns (yielded: seq<T>, outcome: Outcome, ghost evaluated: seq<Option<T>>)
    requires collection.Valid()
    modifies collection
    ensures collection.Valid()
    ensures var rem := old(collection.Remaining());
            var k := FirstFailure(rem, pred);
            && yielded == PassingPrefix(rem, pred)
            && collection.pulls == old(collection.pulls) + k + 1
            && evaluated == Somes(if k < |rem| then rem[..k + 1] else rem)
            && (forall i :: 0 <= i < |evaluated| ==> evaluated[i].Some?)
            && (k < |rem| ==>
                  && collection.pos == old(collection.pos) + k + 1
                  && outcome == Completed)
            && (k == |rem| ==>
                  && collection.pos == |collection.items|
                  && outcome == collection.EndOutcome())
  {
    ghost var rem := collection.Remaining();
    ghost var start := collection.pos;
    ghost var pulls0 := collection.pulls;
    yielded, evaluated := [], [];
    var done := false;
    while !done
      invariant collection.Valid() && start <= collection.pos
      invariant rem == collection.items[start..]
      invariant |yielded| <= |rem| && yielded == rem[..|yielded|]
      invariant forall i :: 0 <= i < |yielded| ==> pred(rem[i])
      invariant !done ==>
                  && collection.pos == start + |yielded|
                  && collection.pulls == pulls0 + |yielded|
                  && evaluated == Somes(yielded)
      invariant done ==>
                  && collection.pulls == pulls0 + |yielded| + 1
                  && ((&& |yielded| < |rem|
                       && !pred(rem[|yielded|])
                       && collection.pos == start + |yielded| + 1
                       && evaluated == Somes(rem[..|yielded| + 1]))
                      || (&& |yielded| == |rem|
                          && collection.pos == |collection.items|
                          && collection.fault.None?
                          && evaluated == Somes(rem)))
      decreases |collection.items| - collection.pos, !done
    {
      var result := collection.Next();
      if result.Failure? {
        outcome := Threw(result.error);
        return;
      }
      done := result.value.Done?;
      if !done {
        evaluated := evaluated + [Some(result.value.value)];
        done := !pred(result.value.value);
        if !done {
          yielded := yielded + [result.value.value];
        } else {
          assert rem[..|yielded| + 1] == yielded + [result.value.value];
        }
      }
    }
    outcome := Completed;
  }
}
