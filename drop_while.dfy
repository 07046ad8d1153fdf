/**
 * `dropWhile(predicate)`: a filter factory. The filter it returns rejects
 * elements while the predicate holds and accepts everything from the first
 * element that fails it on, without consulting the predicate again.
 */
module DropWhileOperator {
  import opened Prefixes

  /** The filter function returned by `dropWhile`, with the variable it captures. */
  class DropWhileFilter<T> {
    const pred: T -> bool
    /** `found` in `dropWhile`, although it is true while elements are being dropped. */
    var found: bool
    /** The arguments the predicate has received so far, in order. */
    ghost var evaluated: seq<T>

    constructor (pred: T -> bool)
      ensures this.pred == pred
      ensures found && evaluated == []
    {
      this.pred := pred;
      found := true;
      evaluated := [];
    }

    /** One call of the filter on `value`: `keep` is whether the element passes. */
    method Call(value: T) returns (keep: bool)
      modifies this
      ensures old(found) ==> && found == pred(value)
                             && keep == !found
                             && evaluated == old(evaluated) + [value]
      ensures !old(found) ==> && keep
                              && !found
                              && evaluated == old(evaluated)
    {
      if !found {
        return true;
      }
      found := found && pred(value);
      evaluated := evaluated + [value];
      keep := !found;
    }
  }

  /**
   * Filtering `s` with the filter `f` (what `array.filter(f)` and the library's
   * `filter` do): the elements for which `f` returns true, in order.
   */
  method Filter<T>(f: DropWhileFilter<T>, s: seq<T>) returns (kept: seq<T>)
    modifies f
    ensures var k := FirstFailure(s, f.pred);
            && (old(f.found) ==>
                  && kept == AfterPassingPrefix(s, f.pred)
                  && f.evaluated == old(f.evaluated) + s[..if k < |s| then k + 1 else k]
                  && f.found == (k == |s|))
            && (!old(f.found) ==>
                  && kept == s
                  && f.evaluated == old(f.evaluated)
                  && !f.found)
  {
    ghost var k := FirstFailure(s, f.pred);
    ghost var dropping := f.found;
    kept := [];
    var i := 0;
    while i < |s|
      invariant 0 <= i <= |s|
      invariant dropping && i <= k ==> && f.found
                                       && kept == []
                                       && f.evaluated == old(f.evaluated) + s[..i]
      invariant dropping && i > k ==> && !f.found
                                      && kept == s[k..i]
                                      && f.evaluated == old(f.evaluated) + s[..k + 1]
      invariant !dropping ==> && !f.found
                              && kept == s[..i]
                              && f.evaluated == old(f.evaluated)
    {
      var keep := f.Call(s[i]);
      if keep {
        kept := kept + [s[i]];
      }
      assert s[..i + 1] == s[..i] + [s[i]];
      i := i + 1;
    }
  }

  /** The expected results: a fresh filter over `[1, 2, 3, 3, 4, 4, 4, 5, 6, 7]` with three thresholds. */
  method FreshFilterBelow5() returns (kept: seq<int>)
    ensures kept == [5, 6, 7]
  {
    var xs := [1, 2, 3, 3, 4, 4, 4, 5, 6, 7];
    var f := new DropWhileFilter((x: int) => x < 5);
    assert FirstFailure(xs, f.pred) == 7 by {
      assert !f.pred(xs[7]);
      assert forall i :: 0 <= i < 7 ==> f.pred(xs[i]);
    }
    kept := Filter(f, xs);
  }

  method FreshFilterBelow0() returns (kept: seq<int>)
    ensures kept == [1, 2, 3, 3, 4, 4, 4, 5, 6, 7]
  {
    var xs := [1, 2, 3, 3, 4, 4, 4, 5, 6, 7];
    var f := new DropWhileFilter((x: int) => x < 0);
    assert FirstFailure(xs, f.pred) == 0 by {
      assert !f.pred(xs[0]);
    }
    kept := Filter(f, xs);
  }

  method FreshFilterBelow100() returns (kept: seq<int>)
    ensures kept == []
  {
    var xs := [1, 2, 3, 3, 4, 4, 4, 5, 6, 7];
    var f := new DropWhileFilter((x: int) => x < 100);
    assert FirstFailure(xs, f.pred) == |xs| by {
      assert forall i :: 0 <= i < |xs| ==> f.pred(xs[i]);
    }
    kept := Filter(f, xs);
  }
}
