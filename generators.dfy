/**
 * The generators of `iter.ts` that reshape a collection: `defaultIfEmpty`,
 * `pairwise`, `chunkify` and `flattenDeep`. Each is modelled by a method that
 * runs the generator to completion, as `Array.from` does, and returns what it
 * yielded and how it ended.
 */
module Generators {
  import opened Protocol
  import opened Types

  // ---------------------------------------------------------------------------
  // defaultIfEmpty

  /**
   * `defaultIfEmpty(collection, defaultValueGetter)`: yields the elements and,
   * when there were none, ends by `return`ing the getter's value. `returned` is
   * the generator's return value (`None` for `undefined`) or the exception that
   * ended it. Only an empty collection makes the getter run, so only then can
   * its throw surface.
   */
  method DefaultIfEmpty<T>(collection: Cursor<T>, defaultValueGetter: () -> Result<T>)
    returns (yielded: seq<T>, returned: Result<Option<T>>)
    requires collection.Valid()
    modifies collection
    ensures collection.Valid() && collection.pos == |collection.items|
    ensures collection.pulls == old(collection.pulls) + |old(collection.Remaining())| + 1
    ensures yielded == old(collection.Remaining())
    ensures returned == if collection.fault.Some? then Failure(collection.fault.value)
                        else if yielded != [] then Success(None)
                        else match defaultValueGetter()
                          case Success(v) => Success(Some(v))
                          case Failure(e) => Failure(e)
  {
    ghost var rem := collection.Remaining();
    ghost var start := collection.pos;
    ghost var pulls0 := collection.pulls;
    yielded := [];
    var done := false;
    var isEmpty := true;
    while !done
      invariant collection.Valid() && start <= collection.pos
      invariant rem == collection.items[start..]
      invariant yielded == rem[..collection.pos - start]
      invariant isEmpty == (yielded == [])
      invariant collection.pulls == pulls0 + |yielded| + (if done then 1 else 0)
      invariant done ==> collection.pos == |collection.items| && collection.fault.None?
      decreases |collection.items| - collection.pos, !done
    {
      var result := collection.Next();
      if result.Failure? {
        return yielded, Failure(result.error);
      }
      done := result.value.Done?;
      if !done {
        isEmpty := false;
        yielded := yielded + [result.value.value];
      }
    }
    returned := Success(None);
    if isEmpty {
      var d := defaultValueGetter();
      returned := if d.Success? then Success(Some(d.value)) else Failure(d.error);
    }
  }

  /**
   * The generator as the operator's name promises: the default is yielded,
   * so a consumer that collects the output sees it.
   */
  method DefaultIfEmptyYielding<T>(collection: Cursor<T>, defaultValueGetter: () -> Result<T>)
    returns (yielded: seq<T>, outcome: Outcome)
    requires collection.Valid()
    modifies collection
    ensures collection.Valid() && collection.pos == |collection.items|
    ensures collection.pulls == old(collection.pulls) + |old(collection.Remaining())| + 1
    ensures var rem := old(collection.Remaining());
            && (collection.fault.Some? ==> yielded == rem && outcome == Threw(collection.fault.value))
            && (collection.fault.None? && rem != [] ==> yielded == rem && outcome == Completed)
            && (collection.fault.None? && rem == [] ==>
                  match defaultValueGetter()
                  case Success(v) => yielded == [v] && outcome == Completed
                  case Failure(e) => yielded == [] && outcome == Threw(e))
  {
    var returned;
    yielded, returned := DefaultIfEmpty(collection, defaultValueGetter);
    outcome := Completed;
    if returned.Failure? {
      outcome := Threw(returned.error);
    } else if returned.value.Some? {
      yielded := yielded + [returned.value.value];
    }
  }

  /**
   * The default never reaches a consumer that collects the output: for an
   * empty collection and a getter that returns normally, the generator yields
   * nothing, while the intended operator yields the default.
   */
  method DefaultIsReturnedNotYielded() returns (asWritten: seq<string>, intended: seq<string>)
    ensures asWritten == []
    ensures intended == ["Empty."]
  {
    var empty := new Cursor<string>([], None);
    var returned;
    asWritten, returned := DefaultIfEmpty(empty, () => Success("Empty."));
    var empty2 := new Cursor<string>([], None);
    var outcome;
    intended, outcome := DefaultIfEmptyYielding(empty2, () => Success("Empty."));
  }

  // ---------------------------------------------------------------------------
  // pairwise

  /** The adjacent pairs of `s`. */
  function Pairs<T>(s: seq<T>): (r: seq<(T, T)>)
    ensures |r| == if |s| == 0 then 0 else |s| - 1
    ensures forall i :: 0 <= i < |r| ==> r[i] == (s[i], s[i + 1])
  {
    if |s| < 2 then [] else [(s[0], s[1])] + Pairs(s[1..])
  }

  lemma PairsEqual<T>(pairs: seq<(T, T)>, s: seq<T>)
    requires |pairs| == if |s| == 0 then 0 else |s| - 1
    requires forall i :: 0 <= i < |pairs| ==> pairs[i] == (s[i], s[i + 1])
    ensures pairs == Pairs(s)
  {
    var r := Pairs(s);
    forall i | 0 <= i < |pairs|
      ensures pairs[i] == r[i]
    {
      assert r[i] == (s[i], s[i + 1]);
    }
  }

  /**
   * `pairwise(collection)`: the first element is only remembered; every later
   * one is yielded paired with the one before it.
   */
  method Pairwise<T>(collection: Cursor<T>) returns (pairs: seq<(T, T)>, outcome: Outcome)
    requires collection.Valid()
    modifies collection
    ensures collection.Valid() && collection.pos == |collection.items|
    ensures collection.pulls == old(collection.pulls) + |old(collection.Remaining())| + 1
    ensures pairs == Pairs(old(collection.Remaining()))
    ensures outcome == collection.EndOutcome()
  {
    ghost var rem := collection.Remaining();
    ghost var start := collection.pos;
    ghost var pulls0 := collection.pulls;
    pairs := [];
    // `previous` starts out `undefined` and is set to the first pulled value,
    // which is `undefined` again when the collection is empty.
    var previous: Option<T> := None;
    var previousSet := false;
    var done := false;
    while !done
      invariant collection.Valid() && start <= collection.pos
      invariant rem == collection.items[start..]
      invariant collection.pulls == pulls0 + (collection.pos - start) + (if done then 1 else 0)
      invariant !previousSet ==> collection.pos == start && !done
      invariant previousSet && !done ==> collection.pos > start
      invariant collection.pos > start ==> previous == Some(rem[collection.pos - start - 1])
      invariant |pairs| == if collection.pos == start then 0 else collection.pos - start - 1
      invariant forall i :: 0 <= i < |pairs| ==> pairs[i] == (rem[i], rem[i + 1])
      invariant done ==> collection.pos == |collection.items| && collection.fault.None?
      decreases |collection.items| - collection.pos, !done
    {
      var result := collection.Next();
      if result.Failure? {
        PairsEqual(pairs, rem);
        return pairs, Threw(result.error);
      }
      done := result.value.Done?;
      if !previousSet {
        previous := if done then None else Some(result.value.value);
        previousSet := true;
        continue;
      }
      if !done {
        var pair := (previous.value, result.value.value);
        previous := Some(result.value.value);
        pairs := pairs + [pair];
      }
    }
    PairsEqual(pairs, rem);
    outcome := Completed;
  }

  // ---------------------------------------------------------------------------
  // chunkify

  /** The concatenation of a sequence of chunks. */
  function Concat<T>(chunks: seq<seq<T>>): seq<T> {
    if chunks == [] then [] else chunks[0] + Concat(chunks[1..])
  }

  lemma {:induction false} ConcatAppend<T>(chunks: seq<seq<T>>, c: seq<T>)
    ensures Concat(chunks + [c]) == Concat(chunks) + c
  {
    if chunks != [] {
      assert (chunks + [c])[1..] == chunks[1..] + [c];
      ConcatAppend(chunks[1..], c);
    }
  }

  /** Chunks as `chunkify` makes them: all of size `k` except the last, which holds 1 to `k`. */
  ghost predicate WellChunked<T>(chunks: seq<seq<T>>, k: nat) {
    && (forall i :: 0 <= i < |chunks| - 1 ==> |chunks[i]| == k)
    && (chunks != [] ==> 1 <= |chunks[|chunks| - 1]| <= k)
  }

  /** `s` cut into consecutive chunks of `k` elements, the last one possibly shorter. */
  function Chunks<T>(s: seq<T>, k: nat): (r: seq<seq<T>>)
    requires k > 0
    ensures Concat(r) == s
    ensures WellChunked(r, k)
    ensures r == [] <==> s == []
    decreases |s|
  {
    if |s| <= k then (if s == [] then [] else [s])
    else
      var rest := Chunks(s[k..], k);
      assert ([s[..k]] + rest)[1..] == rest;
      [s[..k]] + rest
  }

  lemma {:induction false} ConcatNotEmpty<T>(chunks: seq<seq<T>>)
    requires chunks != [] && chunks[|chunks| - 1] != []
    ensures Concat(chunks) != []
  {
    if chunks[0] == [] {
      ConcatNotEmpty(chunks[1..]);
    }
  }

  /** Chunks are determined by what they concatenate to: `Chunks(s, k)` is the only well-chunked split of `s`. */
  lemma {:induction false} ChunksUnique<T>(s: seq<T>, k: nat, chunks: seq<seq<T>>)
    requires k > 0
    requires Concat(chunks) == s && WellChunked(chunks, k)
    ensures chunks == Chunks(s, k)
  {
    if |chunks| == 1 {
      assert chunks[1..] == [];
      assert Concat(chunks) == chunks[0] + Concat(chunks[1..]);
      assert s == chunks[0];
      assert chunks == [s];
    } else if |chunks| > 1 {
      var rest := chunks[1..];
      assert WellChunked(rest, k) by {
        assert forall i :: 0 <= i < |rest| - 1 ==> rest[i] == chunks[i + 1];
      }
      ConcatNotEmpty(rest);
      assert s == chunks[0] + Concat(rest);
      assert s[..k] == chunks[0] && s[k..] == Concat(rest);
      ChunksUnique(s[k..], k, rest);
      assert chunks == [chunks[0]] + rest;
    }
  }

  /** Chunks of two from five elements, of three from fifteen, one chunk when the size exceeds the length, none from nothing. */
  lemma ChunksExample()
    ensures Chunks([1, 2, 3, 4, 5], 2) == [[1, 2], [3, 4], [5]]
    ensures Chunks([1, 2, 3, 4, 5, 1, 2, 3, 4, 5, 1, 2, 3, 4, 5], 3)
            == [[1, 2, 3], [4, 5, 1], [2, 3, 4], [5, 1, 2], [3, 4, 5]]
    ensures Chunks([1, 2], 3) == [[1, 2]]
    ensures Chunks<int>([], 3) == []
  {
    ChunksUnique([1, 2, 3, 4, 5], 2, [[1, 2], [3, 4], [5]]);
    ChunksUnique([1, 2, 3, 4, 5, 1, 2, 3, 4, 5, 1, 2, 3, 4, 5], 3,
                 [[1, 2, 3], [4, 5, 1], [2, 3, 4], [5, 1, 2], [3, 4, 5]]);
    ChunksUnique([1, 2], 3, [[1, 2]]);
  }

  function Digits(n: nat): string
    decreases n
  {
    if n < 10 then ["0123456789"[n]] else Digits(n / 10) + ["0123456789"[n % 10]]
  }

  /** The decimal form JavaScript gives an integer-valued number. */
  function NumberToString(n: int): string {
    if n < 0 then "-" + Digits(-n) else Digits(n)
  }

  /**
   * What `chunkify` throws for a chunk size that is not positive: a
   * `TypeError` whose message names the size it got.
   */
  function ChunkSizeError(chunkSize: int): (e: Error)
    ensures e.name == "TypeError"
    ensures var prefix := "Expected positive finite chunk size, got ";
            && |prefix| < |e.message| && e.message[..|prefix|] == prefix
            && e.message[|e.message| - 1] == '.'
  {
    TypeError("Expected positive finite chunk size, got " + NumberToString(chunkSize) + ".")
  }

  /** The messages for a chunk size of -3 and of 0. */
  lemma ChunkSizeErrorExamples()
    ensures ChunkSizeError(-3).message == "Expected positive finite chunk size, got -3."
    ensures ChunkSizeError(0).message == "Expected positive finite chunk size, got 0."
  {
  }

  /**
   * `chunkify(collection, chunkSize)`. A chunk size of 0 or less throws before
   * the collection is pulled. Otherwise a full buffer is yielded when the next
   * element arrives, and whatever the buffer holds at exhaustion is yielded
   * last; an exception from the collection's `next()` loses that last buffer.
   */
  method Chunkify<T>(collection: Cursor<T>, chunkSize: int) returns (chunks: seq<seq<T>>, outcome: Outcome)
    requires collection.Valid()
    modifies collection
    ensures collection.Valid()
    ensures chunkSize <= 0 ==> && chunks == []
                               && outcome == Threw(ChunkSizeError(chunkSize))
                               && collection.pos == old(collection.pos)
                               && collection.pulls == old(collection.pulls)
    ensures chunkSize > 0 ==>
              var rem := old(collection.Remaining());
              var all := Chunks(rem, chunkSize);
              && collection.pos == |collection.items|
              && collection.pulls == old(collection.pulls) + |rem| + 1
              && outcome == collection.EndOutcome()
              && chunks == if collection.fault.None? || all == [] then all else all[..|all| - 1]
  {
    if chunkSize <= 0 {
      return [], Threw(ChunkSizeError(chunkSize));
    }
    ghost var rem := collection.Remaining();
    ghost var start := collection.pos;
    ghost var pulls0 := collection.pulls;
    chunks := [];
    var buffer: seq<T> := [];
    var done := false;
    while !done
      invariant collection.Valid() && start <= collection.pos
      invariant rem == collection.items[start..]
      invariant collection.pulls == pulls0 + (collection.pos - start) + (if done then 1 else 0)
      invariant Concat(chunks) + buffer == rem[..collection.pos - start]
      invariant forall i :: 0 <= i < |chunks| ==> |chunks[i]| == chunkSize
      invariant |buffer| <= chunkSize
      invariant collection.pos > start <==> buffer != []
      invariant done ==> collection.pos == |collection.items| && collection.fault.None?
      decreases |collection.items| - collection.pos, !done
    {
      var result := collection.Next();
      if result.Failure? {
        assert rem[..collection.pos - start] == rem;
        if buffer != [] {
          ConcatAppend(chunks, buffer);
          ChunksUnique(rem, chunkSize, chunks + [buffer]);
        }
        return chunks, Threw(result.error);
      }
      done := result.value.Done?;
      if !done {
        ghost var n := collection.pos - start;
        assert rem[..n] == rem[..n - 1] + [result.value.value];
        if |buffer| == chunkSize {
          ConcatAppend(chunks, buffer);
          chunks := chunks + [buffer];
          buffer := [];
        }
        buffer := buffer + [result.value.value];
      }
    }
    assert rem[..collection.pos - start] == rem;
    if |buffer| > 0 {
      ConcatAppend(chunks, buffer);
      chunks := chunks + [buffer];
    }
    ChunksUnique(rem, chunkSize, chunks);
    outcome := Completed;
  }

  // ---------------------------------------------------------------------------
  // flattenDeep

  /** The plain values of a deep collection, depth first and left to right. */
  function Leaves<T>(xs: seq<Deep<T>>): seq<T> {
    if xs == [] then []
    else (match xs[0] case Leaf(v) => [v] case Nested(c) => Leaves(c)) + Leaves(xs[1..])
  }

  lemma {:induction false} LeavesAppend<T>(a: seq<Deep<T>>, b: seq<Deep<T>>)
    ensures Leaves(a + b) == Leaves(a) + Leaves(b)
  {
    if a != [] {
      var head := match a[0] case Leaf(v) => [v] case Nested(c) => Leaves(c);
      assert (a + b)[0] == a[0];
      assert (a + b)[1..] == a[1..] + b;
      assert Leaves(a + b) == head + Leaves(a[1..] + b);
      LeavesAppend(a[1..], b);
      assert Leaves(a) == head + Leaves(a[1..]);
    } else {
      assert a + b == b;
    }
  }

  /** A sequence of plain values as a deep collection with no nesting. */
  function Flat<T>(s: seq<T>): (r: seq<Deep<T>>)
    ensures |r| == |s| && forall i :: 0 <= i < |s| ==> r[i] == Leaf(s[i])
  {
    if s == [] then [] else [Leaf(s[0])] + Flat(s[1..])
  }

  /** Flattening a collection with no nesting gives its values back. */
  lemma {:induction false} LeavesOfFlat<T>(s: seq<T>)
    ensures Leaves(Flat(s)) == s
  {
    if s != [] {
      assert Flat(s)[1..] == Flat(s[1..]);
      LeavesOfFlat(s[1..]);
    }
  }

  /** Flattening is idempotent: the output of `flattenDeep` is already flat. */
  lemma FlattenIdempotent<T>(xs: seq<Deep<T>>)
    ensures Leaves(Flat(Leaves(xs))) == Leaves(xs)
  {
    LeavesOfFlat(Leaves(xs));
  }

  /** The nesting of `[[2, 3], 2, [[9, 1]]]` disappears; the empty collection gives nothing. */
  lemma LeavesExample()
    ensures Leaves([Nested([Leaf(2), Leaf(3)]), Leaf(2), Nested([Nested([Leaf(9), Leaf(1)])])]) == [2, 3, 2, 9, 1]
    ensures Leaves<int>([]) == []
  {
    var inner := [Leaf(9), Leaf(1)];
    assert Leaves(inner) == [9, 1] by {
      assert inner[1..] == [Leaf(1)];
    }
    assert Leaves([Nested(inner)]) == [9, 1];
    var first := [Leaf(2), Leaf(3)];
    assert Leaves(first) == [2, 3] by {
      assert first[1..] == [Leaf(3)];
    }
    var xs := [Nested(first), Leaf(2), Nested([Nested(inner)])];
    assert xs[1..] == [Leaf(2), Nested([Nested(inner)])];
    assert xs[1..][1..] == [Nested([Nested(inner)])];
  }

  /** The plain values of one element of a deep collection. */
  function NodeLeaves<T>(x: Deep<T>): seq<T> {
    match x case Leaf(v) => [v] case Nested(c) => Leaves(c)
  }

  /** Flattening one more element appends that element's plain values. */
  lemma LeavesStep<T>(xs: seq<Deep<T>>, n: nat)
    requires 0 < n <= |xs|
    ensures Leaves(xs[..n]) == Leaves(xs[..n - 1]) + NodeLeaves(xs[n - 1])
  {
    assert xs[..n] == xs[..n - 1] + [xs[n - 1]];
    LeavesAppend(xs[..n - 1], [xs[n - 1]]);
    assert [xs[n - 1]][1..] == [];
  }

  /**
   * `flattenDeep(collection)`: every nested collection is flattened by a
   * recursive `flattenDeep` over an iterator of its own, and plain values are
   * yielded as they come.
   */
  method FlattenDeep<T>(collection: Cursor<Deep<T>>) returns (leaves: seq<T>, outcome: Outcome)
    requires collection.Valid()
    modifies collection
    ensures collection.Valid() && collection.pos == |collection.items|
    ensures collection.pulls == old(collection.pulls) + |old(collection.Remaining())| + 1
    ensures leaves == Leaves(old(collection.Remaining()))
    ensures outcome == collection.EndOutcome()
    decreases collection.items
  {
    ghost var rem := collection.Remaining();
    ghost var start := collection.pos;
    ghost var pulls0 := collection.pulls;
    leaves := [];
    while true
      invariant collection.Valid() && start <= collection.pos
      invariant rem == collection.items[start..]
      invariant leaves == Leaves(rem[..collection.pos - start])
      invariant collection.pulls == pulls0 + (collection.pos - start)
      decreases |collection.items| - collection.pos
    {
      var result := collection.Next();
      if result.Failure? {
        assert rem[..collection.pos - start] == rem;
        return leaves, Threw(result.error);
      }
      if result.value.Done? {
        break;
      }
      var value := result.value.value;
      assert value == collection.items[collection.pos - 1];
      LeavesStep(rem, collection.pos - start);
      match value
      case Nested(children) =>
        var inner := new Cursor(children, None);
        var sub, _ := FlattenDeep(inner);
        leaves := leaves + sub;
      case Leaf(v) =>
        leaves := leaves + [v];
    }
    assert rem[..collection.pos - start] == rem;
    outcome := Completed;
  }
}
