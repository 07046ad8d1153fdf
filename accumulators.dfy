/**
 * The accumulators of `iter.ts`: operations that consume a collection, fully
 * or up to a match, and produce one value; and the reduce operators `sum` and
 * `count`, which package a reduction step with its initial value.
 */
module Accumulators {
  import opened Protocol

  // ---------------------------------------------------------------------------
  // fromEntries

  /** The object built from `entries` by assigning them one after the other. */
  function EntriesMap<K, V>(entries: seq<(K, V)>): (m: map<K, V>)
    ensures m.Keys == set i | 0 <= i < |entries| :: entries[i].0
  {
    if entries == [] then map[]
    else
      var init := entries[..|entries| - 1];
      var last := entries[|entries| - 1];
      assert forall i :: 0 <= i < |init| ==> init[i] == entries[i];
      EntriesMap(init)[last.0 := last.1]
  }

  /** Each key holds the value of the last entry with that key. */
  lemma {:induction false} LastEntryWins<K, V>(entries: seq<(K, V)>, i: nat)
    requires i < |entries|
    requires forall j :: i < j < |entries| ==> entries[j].0 != entries[i].0
    ensures entries[i].0 in EntriesMap(entries)
    ensures EntriesMap(entries)[entries[i].0] == entries[i].1
  {
    if i < |entries| - 1 {
      var init := entries[..|entries| - 1];
      assert forall j :: 0 <= j < |init| ==> init[j] == entries[j];
      LastEntryWins(init, i);
    }
  }

  /**
   * `fromEntries(collection)`: drains a collection of `[key, value]` pairs into
   * an object. An exception from the collection's `next()` propagates.
   */
  method FromEntries<K, V>(collection: Cursor<(K, V)>) returns (r: Result<map<K, V>>)
    requires collection.Valid()
    modifies collection
    ensures collection.Valid() && collection.pos == |collection.items|
    ensures collection.pulls == old(collection.pulls) + |old(collection.Remaining())| + 1
    ensures r == if collection.fault.Some? then Failure(collection.fault.value)
                 else Success(EntriesMap(old(collection.Remaining())))
  {
    ghost var rem := collection.Remaining();
    ghost var start := collection.pos;
    ghost var pulls0 := collection.pulls;
    var obj: map<K, V> := map[];
    var done := false;
    while !done
      invariant collection.Valid() && start <= collection.pos
      invariant rem == collection.items[start..]
      invariant !done ==> && obj == EntriesMap(rem[..collection.pos - start])
                          && collection.pulls == pulls0 + (collection.pos - start)
      invariant done ==> && obj == EntriesMap(rem)
                         && collection.fault.None?
                         && collection.pos == |collection.items|
                         && collection.pulls == pulls0 + |rem| + 1
      decreases |collection.items| - collection.pos, !done
    {
      var result := collection.Next();
      if result.Failure? {
        return Failure(result.error);
      }
      done := result.value.Done?;
      if !done {
        var entry := result.value.value;
        ghost var n := collection.pos - start;
        assert rem[..n][..n - 1] == rem[..n - 1];
        obj := obj[entry.0 := entry.1];
      } else {
        assert rem[..collection.pos - start] == rem;
      }
    }
    r := Success(obj);
  }

  // ---------------------------------------------------------------------------
  // firstOrDefault, first, lastOrDefault, last

  /** The index of the earliest element of `s` satisfying `p`, if any. */
  function FindFirst<T>(s: seq<T>, p: T -> bool): (r: Option<nat>)
    ensures r.Some? ==> && r.value < |s|
                        && p(s[r.value])
                        && forall i :: 0 <= i < r.value ==> !p(s[i])
    ensures r.None? ==> forall i :: 0 <= i < |s| ==> !p(s[i])
  {
    if s == [] then None
    else if p(s[0]) then Some(0)
    else match FindFirst(s[1..], p)
      case Some(k) => Some(k + 1)
      case None => None
  }

  /** The index of the latest element of `s` satisfying `p`, if any. */
  function FindLast<T>(s: seq<T>, p: T -> bool): (r: Option<nat>)
    ensures r.Some? ==> && r.value < |s|
                        && p(s[r.value])
                        && forall i :: r.value < i < |s| ==> !p(s[i])
    ensures r.None? ==> forall i :: 0 <= i < |s| ==> !p(s[i])
  {
    if s == [] then None
    else if p(s[|s| - 1]) then Some(|s| - 1)
    else FindLast(s[..|s| - 1], p)
  }

  /**
   * What `firstOrDefault` returns for the remaining elements `s` of a
   * collection whose end behaves as `fault` says: the earliest match, or else
   * the default getter's result (a throw from the getter included). `None`
   * stands for `undefined`.
   */
  ghost function FirstOrDefaultResult<T>(s: seq<T>, p: T -> bool, getter: () -> Result<Option<T>>,
                                         fault: Option<Error>): Result<Option<T>>
  {
    match FindFirst(s, p)
    case Some(k) => Success(Some(s[k]))
    case None => if fault.Some? then Failure(fault.value) else getter()
  }

  /** The same for `lastOrDefault`, with the latest match. */
  ghost function LastOrDefaultResult<T>(s: seq<T>, p: T -> bool, getter: () -> Result<Option<T>>,
                                        fault: Option<Error>): Result<Option<T>>
  {
    if fault.Some? then Failure(fault.value)
    else match FindLast(s, p)
      case Some(k) => Success(Some(s[k]))
      case None => getter()
  }

  /** What `first` and `last` throw by default. */
  function NotFound(): (e: Error)
    ensures e.name == "TypeError" && e.message == "Value is not found in the collection!"
  {
    TypeError("Value is not found in the collection!")
  }

  /**
   * `firstOrDefault(collection, predicate, defaultValueGetter)`: pulls until the
   * first element satisfying the predicate and returns it without pulling
   * further; with no match, it drains the collection and returns the getter's
   * result. The defaults: every element matches, and the getter returns
   * `undefined`.
   */
  method FirstOrDefault<T>(collection: Cursor<T>, pred: T -> bool := _ => true,
                           defaultValueGetter: () -> Result<Option<T>> := () => Success(None))
    returns (r: Result<Option<T>>)
    requires collection.Valid()
    modifies collection
    ensures collection.Valid()
    ensures var rem := old(collection.Remaining());
            && r == FirstOrDefaultResult(rem, pred, defaultValueGetter, collection.fault)
            && match FindFirst(rem, pred)
               case Some(k) => && collection.pos == old(collection.pos) + k + 1
                               && collection.pulls == old(collection.pulls) + k + 1
               case None => && collection.pos == |collection.items|
                            && collection.pulls == old(collection.pulls) + |rem| + 1
  {
    ghost var rem := collection.Remaining();
    ghost var start := collection.pos;
    ghost var pulls0 := collection.pulls;
    var done := false;
    while !done
      invariant collection.Valid() && start <= collection.pos
      invariant rem == collection.items[start..]
      invariant forall i :: 0 <= i < collection.pos - start ==> !pred(rem[i])
      invariant collection.pulls == pulls0 + (collection.pos - start) + (if done then 1 else 0)
      invariant done ==> collection.pos == |collection.items| && collection.fault.None?
      decreases |collection.items| - collection.pos, !done
    {
      var result := collection.Next();
      if result.Failure? {
        return Failure(result.error);
      }
      done := result.value.Done?;
      if !done && pred(result.value.value) {
        return Success(Some(result.value.value));
      }
    }
    r := defaultValueGetter();
  }

  /** `first`: `firstOrDefault` whose getter throws "not found" unless told otherwise. */
  method First<T>(collection: Cursor<T>, pred: T -> bool := _ => true,
                  throwNotFound: () -> Result<Option<T>> := () => Failure(NotFound()))
    returns (r: Result<Option<T>>)
    requires collection.Valid()
    modifies collection
    ensures collection.Valid()
    ensures var rem := old(collection.Remaining());
            && r == FirstOrDefaultResult(rem, pred, throwNotFound, collection.fault)
            && match FindFirst(rem, pred)
               case Some(k) => && collection.pos == old(collection.pos) + k + 1
                               && collection.pulls == old(collection.pulls) + k + 1
               case None => && collection.pos == |collection.items|
                            && collection.pulls == old(collection.pulls) + |rem| + 1
  {
    r := FirstOrDefault(collection, pred, throwNotFound);
  }

  /**
   * `lastOrDefault(collection, predicate, defaultValueGetter)`: drains the
   * collection and returns the latest element satisfying the predicate, or the
   * getter's result when there is none.
   */
  method LastOrDefault<T>(collection: Cursor<T>, pred: T -> bool := _ => true,
                          defaultValueGetter: () -> Result<Option<T>> := () => Success(None))
    returns (r: Result<Option<T>>)
    requires collection.Valid()
    modifies collection
    ensures collection.Valid()
    ensures r == LastOrDefaultResult(old(collection.Remaining()), pred, defaultValueGetter, collection.fault)
    ensures collection.pos == |collection.items|
    ensures collection.pulls == old(collection.pulls) + |old(collection.Remaining())| + 1
  {
    ghost var rem := collection.Remaining();
    ghost var start := collection.pos;
    ghost var pulls0 := collection.pulls;
    var done := false;
    var found := false;
    var value: Option<T> := None;
    while !done
      invariant collection.Valid() && start <= collection.pos
      invariant rem == collection.items[start..]
      invariant var seen := rem[..collection.pos - start];
                && found == FindLast(seen, pred).Some?
                && (found ==> value == Some(seen[FindLast(seen, pred).value]))
      invariant collection.pulls == pulls0 + (collection.pos - start) + (if done then 1 else 0)
      invariant done ==> collection.pos == |collection.items| && collection.fault.None?
      decreases |collection.items| - collection.pos, !done
    {
      var result := collection.Next();
      if result.Failure? {
        return Failure(result.error);
      }
      done := result.value.Done?;
      if !done {
        ghost var n := collection.pos - start;
        assert rem[..n][..n - 1] == rem[..n - 1];
        if pred(result.value.value) {
          found := true;
          value := Some(result.value.value);
        }
      }
    }
    assert rem[..collection.pos - start] == rem;
    r := if found then Success(value) else defaultValueGetter();
  }

  /** `last`: `lastOrDefault` whose getter throws "not found" unless told otherwise. */
  method Last<T>(collection: Cursor<T>, pred: T -> bool := _ => true,
                 throwNotFound: () -> Result<Option<T>> := () => Failure(NotFound()))
    returns (r: Result<Option<T>>)
    requires collection.Valid()
    modifies collection
    ensures collection.Valid()
    ensures r == LastOrDefaultResult(old(collection.Remaining()), pred, throwNotFound, collection.fault)
    ensures collection.pos == |collection.items|
    ensures collection.pulls == old(collection.pulls) + |old(collection.Remaining())| + 1
  {
    r := LastOrDefault(collection, pred, throwNotFound);
  }

  /**
   * The documented cases for an empty collection: `firstOrDefault` gives the
   * getter's value and `first` throws "not found".
   */
  method EmptySearchExamples() returns (a: Result<Option<int>>, b: Result<Option<int>>)
    ensures a == Success(Some(7))
    ensures b == Failure(NotFound())
  {
    var empty := new Cursor<int>([], None);
    a := FirstOrDefault(empty, _ => true, () => Success(Some(7)));
    var empty2 := new Cursor<int>([], None);
    b := First(empty2);
  }

  /** With no match the getter's fallback comes back; `last` finds the latest match. */
  method MatchSearchExamples() returns (c: Result<Option<int>>, d: Result<Option<int>>)
    ensures c == Success(Some(42))
    ensures d == Success(Some(3))
  {
    var xs := new Cursor([1, 2, 3], None);
    c := First(xs, (x: int) => x > 10, () => Success(Some(42)));
    var odd := (x: int) => x % 2 == 1;
    assert FindLast([1, 2, 3, 4], odd) == Some(2) by {
      assert !odd([1, 2, 3, 4][3]) && odd([1, 2, 3, 4][2]);
    }
    var ys := new Cursor([1, 2, 3, 4], None);
    d := Last(ys, odd);
  }

  // ---------------------------------------------------------------------------
  // sum and count as reduce operators

  /** A reduce operator: the step function and the initial value, spread into `reduce`. */
  datatype Reducer<-T> = Reducer(step: (int, T) -> int, seed: int)

  /** `iterate(s).reduce(step, seed)`: the step applied from left to right. */
  function Reduce<T>(s: seq<T>, r: Reducer<T>): int {
    if s == [] then r.seed else r.step(Reduce(s[..|s| - 1], r), s[|s| - 1])
  }

  /** The sum of `selector` over `s`. */
  function Sigma<T>(selector: T -> int, s: seq<T>): int {
    if s == [] then 0 else selector(s[0]) + Sigma(selector, s[1..])
  }

  /** `sum(selector)`: a step that adds the selected number, and the initial value 0. */
  function Sum<T>(selector: T -> int): (r: Reducer<T>)
    ensures r.seed == 0
  {
    Reducer((acc: int, value: T) => acc + selector(value), 0)
  }

  /** `count()`: `sum` with a selector that gives 1 for every value. */
  function Count<T>(): (r: Reducer<T>)
    ensures r.seed == 0
  {
    Sum(_ => 1)
  }

  lemma {:induction false} SigmaAppend<T>(selector: T -> int, s: seq<T>, x: T)
    ensures Sigma(selector, s + [x]) == Sigma(selector, s) + selector(x)
  {
    if s != [] {
      assert (s + [x])[1..] == s[1..] + [x];
      SigmaAppend(selector, s[1..], x);
    }
  }

  /** Reducing with `sum(selector)` gives the sum of the selected numbers. */
  lemma {:induction false} SumReduces<T>(s: seq<T>, selector: T -> int)
    ensures Reduce(s, Sum(selector)) == Sigma(selector, s)
  {
    if s != [] {
      var init := s[..|s| - 1];
      SumReduces(init, selector);
      SigmaAppend(selector, init, s[|s| - 1]);
      assert init + [s[|s| - 1]] == s;
    }
  }

  /** Reducing with `count()` gives the number of elements. */
  lemma {:induction false} CountReduces<T>(s: seq<T>)
    ensures Reduce(s, Count()) == |s|
  {
    if s != [] {
      CountReduces(s[..|s| - 1]);
    }
  }
}
