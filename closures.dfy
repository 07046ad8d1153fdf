/**
 * The operator factories of `iter.ts` that return a stateful callback for
 * `map` or `filter`: `enumerate` and `scan` (map callbacks) and
 * `distinctUntilChanged` (a filter callback). Each factory call is a
 * constructor, its closure variables are the fields, and one invocation of the
 * callback is `Call`. The drivers apply one callback to a sequence of values in
 * order, as `Array.prototype.map`/`filter` or the `map`/`filter` operators do.
 */
module Closures {
  import opened Protocol

  // ---------------------------------------------------------------------------
  // enumerate

  /** `s` paired with consecutive indices counted from `from`. */
  function Indexed<T>(s: seq<T>, from: int): (r: seq<(int, T)>)
    ensures |r| == |s|
    ensures forall j :: 0 <= j < |s| ==> r[j] == (from + j, s[j])
  {
    if s == [] then [] else [(from, s[0])] + Indexed(s[1..], from + 1)
  }

  /** Mapping two sequences in turn with one counter indexes the second after the first. */
  lemma IndexedAppend<T>(s1: seq<T>, s2: seq<T>, from: int)
    ensures Indexed(s1 + s2, from) == Indexed(s1, from) + Indexed(s2, from + |s1|)
  {
    var l, r := Indexed(s1 + s2, from), Indexed(s1, from) + Indexed(s2, from + |s1|);
    assert forall j :: 0 <= j < |l| ==> l[j] == r[j];
  }

  /** `enumerate()`: a map callback that pairs each value with a counter starting at 0. */
  class Enumerate {
    var i: int

    constructor ()
      ensures i == 0
    {
      i := 0;
    }

    /** `enumerateMap(value)`: returns `[i, value]` and then counts up. */
    method Call<T>(value: T) returns (pair: (int, T))
      modifies this
      ensures pair == (old(i), value)
      ensures i == old(i) + 1
    {
      pair := (i, value);
      i := i + 1;
    }
  }

  /** Maps `s` with the callback: indices continue from wherever its counter stands. */
  method MapEnumerate<T>(e: Enumerate, s: seq<T>) returns (out: seq<(int, T)>)
    modifies e
    ensures out == Indexed(s, old(e.i))
    ensures e.i == old(e.i) + |s|
  {
    ghost var from := e.i;
    out := [];
    for j := 0 to |s|
      invariant e.i == from + j
      invariant out == Indexed(s[..j], from)
    {
      var pair := e.Call(s[j]);
      IndexedAppend(s[..j], [s[j]], from);
      assert s[..j + 1] == s[..j] + [s[j]];
      out := out + [pair];
    }
    assert s[..|s|] == s;
  }

  /**
   * One `enumerate()` per mapping starts at 0; one callback reused for a second
   * mapping goes on counting from where the first stopped.
   */
  method EnumerateExamples() returns (single: seq<(int, char)>, first: seq<(int, char)>, reused: seq<(int, char)>)
    ensures single == [(0, 'a'), (1, 'b'), (2, 'c')]
    ensures first == [(0, 'a'), (1, 'b')]
    ensures reused == [(2, 'c')]
  {
    var e := new Enumerate();
    single := MapEnumerate(e, "abc");
    var shared := new Enumerate();
    first := MapEnumerate(shared, "ab");
    reused := MapEnumerate(shared, "c");
  }

  // ---------------------------------------------------------------------------
  // scan

  /** The left fold of `s` into `acc`. */
  function FoldLeft<T>(f: (T, T) -> T, acc: T, s: seq<T>): T
    decreases |s|
  {
    if s == [] then acc else FoldLeft(f, f(acc, s[0]), s[1..])
  }

  /** The successive accumulations of `s` into `acc`, one per element. */
  function RunningFold<T>(f: (T, T) -> T, acc: T, s: seq<T>): (r: seq<T>)
    ensures |r| == |s|
    ensures s != [] ==> r[0] == f(acc, s[0])
    ensures forall i :: 0 < i < |s| ==> r[i] == f(r[i - 1], s[i])
    decreases |s|
  {
    if s == [] then [] else var a := f(acc, s[0]); [a] + RunningFold(f, a, s[1..])
  }

  /**
   * What the callback maps `s` to from the state `accumulated`: `None` stands
   * for a callback whose factory got no seed and has not run yet, whose first
   * output is the first value itself.
   */
  function ScanOutput<T>(f: (T, T) -> T, accumulated: Option<T>, s: seq<T>): (r: seq<T>)
    ensures |r| == |s|
  {
    if accumulated.Some? then RunningFold(f, accumulated.value, s)
    else if s == [] then []
    else [s[0]] + RunningFold(f, s[0], s[1..])
  }

  /** Output `i` is the fold of the first `i + 1` values. */
  lemma {:induction false} RunningFoldIsPrefixFolds<T>(f: (T, T) -> T, acc: T, s: seq<T>)
    ensures forall i :: 0 <= i < |s| ==> RunningFold(f, acc, s)[i] == FoldLeft(f, acc, s[..i + 1])
    decreases |s|
  {
    if s != [] {
      var a := f(acc, s[0]);
      RunningFoldIsPrefixFolds(f, a, s[1..]);
      forall i | 0 <= i < |s|
        ensures RunningFold(f, acc, s)[i] == FoldLeft(f, acc, s[..i + 1])
      {
        assert s[..i + 1][0] == s[0];
        assert s[..i + 1][1..] == s[1..][..i];
        if i > 0 {
          assert RunningFold(f, acc, s)[i] == RunningFold(f, a, s[1..])[i - 1];
        }
      }
    }
  }

  /** A seed that is a left identity of the accumulator gives the same outputs as no seed. */
  lemma IdentitySeedIsUnseeded<T>(f: (T, T) -> T, e: T, s: seq<T>)
    requires forall x :: f(e, x) == x
    ensures ScanOutput(f, Some(e), s) == ScanOutput(f, None, s)
  {
    if s != [] {
      assert f(e, s[0]) == s[0];
    }
  }

  /** `scan(accumulator, seed?)`: a map callback that returns the running accumulation. */
  class Scan<T> {
    const accumulator: (T, T) -> T
    var accumulated: Option<T>
    var accumulatedSet: bool

    ghost predicate Valid()
      reads this
    {
      accumulatedSet == accumulated.Some?
    }

    /** `seed` is `None` when the factory was called with the accumulator alone. */
    constructor (accumulator: (T, T) -> T, seed: Option<T>)
      ensures Valid()
      ensures this.accumulator == accumulator && accumulated == seed
    {
      this.accumulator := accumulator;
      accumulated := seed;
      accumulatedSet := seed.Some?;
    }

    /** `scanMap(value)`: the first unseeded call returns the value, every other one the accumulation. */
    method Call(value: T) returns (r: T)
      requires Valid()
      modifies this
      ensures Valid()
      ensures r == if old(accumulatedSet) then accumulator(old(accumulated).value, value) else value
      ensures accumulated == Some(r)
    {
      if !accumulatedSet {
        accumulated := Some(value);
        accumulatedSet := true;
      } else {
        accumulated := Some(accumulator(accumulated.value, value));
      }
      r := accumulated.value;
    }
  }

  /** Maps `s` with the callback, carrying the accumulation over from earlier calls. */
  method MapScan<T>(sc: Scan<T>, s: seq<T>) returns (out: seq<T>)
    requires sc.Valid()
    modifies sc
    ensures sc.Valid()
    ensures out == ScanOutput(sc.accumulator, old(sc.accumulated), s)
    ensures sc.accumulated == if s == [] then old(sc.accumulated) else Some(out[|s| - 1])
  {
    ghost var start := sc.accumulated;
    out := [];
    for j := 0 to |s|
      invariant sc.Valid()
      invariant out == ScanOutput(sc.accumulator, start, s)[..j]
      invariant sc.accumulated == if j == 0 then start else Some(out[j - 1])
    {
      var r := sc.Call(s[j]);
      ghost var all := ScanOutput(sc.accumulator, start, s);
      assert all[j] == r by {
        if start.Some? {
          if j > 0 {
            assert all[j] == sc.accumulator(all[j - 1], s[j]);
          }
        } else if j > 0 {
          var tail := RunningFold(sc.accumulator, s[0], s[1..]);
          assert all[j] == tail[j - 1];
          if j > 1 {
            assert tail[j - 1] == sc.accumulator(tail[j - 2], s[j]);
          }
        }
      }
      out := out + [r];
    }
  }

  /** `[1, 2, 3, 4, 5]` mapped with `scan((a, v) => a + v * 2)`, and the running sum of `[1, 2, 3]`. */
  method ScanExamples() returns (doubled: seq<int>, sums: seq<int>, none: seq<int>)
    ensures doubled == [1, 5, 11, 19, 29]
    ensures sums == [1, 3, 6]
    ensures none == []
  {
    var sc := new Scan((a: int, v: int) => a + v * 2, None);
    doubled := MapScan(sc, [1, 2, 3, 4, 5]);
    var plus := new Scan((a: int, v: int) => a + v, Some(0));
    sums := MapScan(plus, [1, 2, 3]);
    var empty := new Scan((a: int, v: int) => a + v * 2, None);
    none := MapScan(empty, []);
  }

  // ---------------------------------------------------------------------------
  // distinctUntilChanged

  /**
   * The values of `s` the callback keeps from the state `previous` (`None`
   * before the first call): a value is kept when the comparator says it differs
   * from the last value kept.
   */
  function Distinct<T>(cmp: (T, T) -> bool, previous: Option<T>, s: seq<T>): seq<T>
    decreases |s|
  {
    if s == [] then []
    else if previous.None? || !cmp(previous.value, s[0]) then [s[0]] + Distinct(cmp, Some(s[0]), s[1..])
    else Distinct(cmp, previous, s[1..])
  }

  /**
   * Consecutive kept values never compare equal, and the first one does not
   * compare equal to the state it started from; every kept value comes from `s`.
   */
  lemma {:induction false} DistinctHasNoRepeats<T>(cmp: (T, T) -> bool, previous: Option<T>, s: seq<T>)
    ensures forall i :: 0 <= i < |Distinct(cmp, previous, s)| - 1 ==>
              !cmp(Distinct(cmp, previous, s)[i], Distinct(cmp, previous, s)[i + 1])
    ensures previous.Some? && Distinct(cmp, previous, s) != [] ==> !cmp(previous.value, Distinct(cmp, previous, s)[0])
    ensures forall x :: x in Distinct(cmp, previous, s) ==> x in s
    decreases |s|
  {
    if s != [] {
      if previous.None? || !cmp(previous.value, s[0]) {
        DistinctHasNoRepeats(cmp, Some(s[0]), s[1..]);
        var r := Distinct(cmp, previous, s);
        var rest := Distinct(cmp, Some(s[0]), s[1..]);
        assert r == [s[0]] + rest;
        assert forall i :: 1 <= i < |r| ==> r[i] == rest[i - 1];
      } else {
        DistinctHasNoRepeats(cmp, previous, s[1..]);
      }
    }
  }

  /** Values with no repeats pass through unchanged. */
  lemma {:induction false} DistinctKeepsRepeatFree<T>(cmp: (T, T) -> bool, previous: Option<T>, t: seq<T>)
    requires forall i :: 0 <= i < |t| - 1 ==> !cmp(t[i], t[i + 1])
    requires previous.Some? && t != [] ==> !cmp(previous.value, t[0])
    ensures Distinct(cmp, previous, t) == t
    decreases |t|
  {
    if t != [] {
      var rest := t[1..];
      forall i | 0 <= i < |rest| - 1
        ensures !cmp(rest[i], rest[i + 1])
      {
        assert rest[i] == t[i + 1] && rest[i + 1] == t[i + 2];
      }
      DistinctKeepsRepeatFree(cmp, Some(t[0]), rest);
      assert t == [t[0]] + rest;
    }
  }

  /** Filtering twice with fresh callbacks keeps what filtering once keeps, for any comparator. */
  lemma DistinctIdempotent<T>(cmp: (T, T) -> bool, s: seq<T>)
    ensures Distinct(cmp, None, Distinct(cmp, None, s)) == Distinct(cmp, None, s)
  {
    var r := Distinct(cmp, None, s);
    DistinctHasNoRepeats(cmp, None, s);
    assert forall i :: 0 <= i < |r| - 1 ==> !cmp(r[i], r[i + 1]);
    DistinctKeepsRepeatFree(cmp, None, r);
  }

  /**
   * `distinctUntilChanged(comparator)`: a filter callback that drops a value
   * equal to the last one kept. The default comparator is `===`, which is `==`
   * here: plain values compare by value, and an object literal is an `Obj`
   * whose `identity` tells it apart from every other one.
   */
  class DistinctUntilChanged<T(==)> {
    const comparator: (T, T) -> bool
    var previous: Option<T>
    var initialized: bool

    ghost predicate Valid()
      reads this
    {
      initialized == previous.Some?
    }

    constructor (comparator: (T, T) -> bool := (a: T, b: T) => a == b)
      ensures Valid() && !initialized
      ensures this.comparator == comparator
    {
      this.comparator := comparator;
      previous := None;
      initialized := false;
    }

    /** `distinctUntilChangedFilter(value)`: the first value is kept; later ones when they differ from `previous`. */
    method Call(value: T) returns (keep: bool)
      requires Valid()
      modifies this
      ensures Valid() && initialized
      ensures keep == (!old(initialized) || !comparator(old(previous).value, value))
      ensures previous == if keep then Some(value) else old(previous)
    {
      if !initialized {
        previous := Some(value);
        initialized := true;
        return true;
      }
      if !comparator(previous.value, value) {
        previous := Some(value);
        return true;
      }
      return false;
    }
  }

  /** Filters `s` with the callback; the last value kept becomes its `previous`. */
  method FilterDistinct<T(==)>(f: DistinctUntilChanged<T>, s: seq<T>) returns (kept: seq<T>)
    requires f.Valid()
    modifies f
    ensures f.Valid()
    ensures kept == Distinct(f.comparator, old(f.previous), s)
    ensures f.previous == if kept == [] then old(f.previous) else Some(kept[|kept| - 1])
  {
    ghost var start := f.previous;
    kept := [];
    for j := 0 to |s|
      invariant f.Valid()
      invariant f.previous == if kept == [] then start else Some(kept[|kept| - 1])
      invariant kept + Distinct(f.comparator, f.previous, s[j..]) == Distinct(f.comparator, start, s)
    {
      assert s[j..][1..] == s[j + 1..];
      var keep := f.Call(s[j]);
      if keep {
        kept := kept + [s[j]];
      }
    }
  }

  /** An object literal: `===` compares identities, a custom comparator can compare `v`. */
  datatype Obj = Obj(identity: nat, v: int)

  /** Runs of equal values collapse to one, with the default `===` comparator. */
  method DistinctValueExamples() returns (pairs: seq<int>, ones: seq<int>, empty: seq<int>)
    ensures pairs == [1, 2, 3]
    ensures ones == [1]
    ensures empty == []
  {
    var f1 := new DistinctUntilChanged<int>();
    pairs := FilterDistinct(f1, [1, 1, 2, 2, 3, 3]);
    var f2 := new DistinctUntilChanged<int>();
    ones := FilterDistinct(f2, [1, 1, 1, 1]);
    var f3 := new DistinctUntilChanged<int>();
    empty := FilterDistinct(f3, []);
  }

  /**
   * Six distinct object literals holding `1, 1, 2, 2, 3, 3`: the default `===`
   * keeps them all, a comparator of `v` keeps one per run.
   */
  method DistinctObjectExamples() returns (byIdentity: seq<Obj>, byV: seq<Obj>)
    ensures byIdentity == [Obj(0, 1), Obj(1, 1), Obj(2, 2), Obj(3, 2), Obj(4, 3), Obj(5, 3)]
    ensures byV == [Obj(0, 1), Obj(2, 2), Obj(4, 3)]
  {
    var objs := [Obj(0, 1), Obj(1, 1), Obj(2, 2), Obj(3, 2), Obj(4, 3), Obj(5, 3)];
    var f1 := new DistinctUntilChanged<Obj>();
    DistinctKeepsRepeatFree(f1.comparator, None, objs);
    byIdentity := FilterDistinct(f1, objs);
    var f2 := new DistinctUntilChanged((a: Obj, b: Obj) => a.v == b.v);
    byV := FilterDistinct(f2, objs);
  }
}
