/**
 * The pull protocol shared by every operator of the library: a consumer calls
 * `next()` and receives either a value (`done: false`) or the exhausted signal
 * (`done: true`, value `undefined`), or the call throws.
 *
 * A producer is modelled as a finite sequence read through a cursor, which is
 * what `toIterator` gives for an array. The cursor may be told to throw instead
 * of reporting exhaustion, which models a producer whose `next()` raises.
 */
module Protocol {

  datatype Option<+T> = None | Some(value: T)

  /** A JavaScript exception: the name of its constructor and its message. */
  datatype Error = Error(name: string, message: string)

  function TypeError(message: string): Error {
    Error("TypeError", message)
  }

  /** A call that returns a value or throws. */
  datatype Result<+T> = Success(value: T) | Failure(error: Error)

  /** How a run of a generator or a loop ended: without an exception, or with one. */
  datatype Outcome = Completed | Threw(error: Error)

  /** `IteratorResult`: a value with `done: false`, or `done: true`. */
  datatype IterResult<+T> = Item(value: T) | Done

  /** `s` with every element wrapped in `Some`. */
  function Somes<T>(s: seq<T>): (r: seq<Option<T>>)
    ensures |r| == |s|
    ensures forall i :: 0 <= i < |s| ==> r[i] == Some(s[i])
  {
    if s == [] then [] else [Some(s[0])] + Somes(s[1..])
  }

  /** An iterator over a finite collection. */
  class Cursor<T> {
    /** The elements the iterator produces, in order. */
    const items: seq<T>
    /** When `Some(e)`, a pull past the last element throws `e` instead of reporting `done`. */
    const fault: Option<Error>
    /** How many elements have been produced so far. */
    var pos: nat
    /** How many times `next()` has been called. */
    ghost var pulls: nat

    ghost predicate Valid()
      reads this
    {
      pos <= |items|
    }

    /** The elements not produced yet. */
    ghost function Remaining(): seq<T>
      reads this
      requires Valid()
    {
      items[pos..]
    }

    /** What every pull returns once the elements are used up. */
    function EndResult(): Result<IterResult<T>> {
      if fault.Some? then Failure(fault.value) else Success(Done)
    }

    /** How a consumer that reads to the end of this iterator finishes. */
    function EndOutcome(): Outcome {
      if fault.Some? then Threw(fault.value) else Completed
    }

    /** What the next pull will return. */
    ghost function Upcoming(): Result<IterResult<T>>
      reads this
      requires Valid()
    {
      if pos < |items| then Success(Item(items[pos])) else EndResult()
    }

    constructor (items: seq<T>, fault: Option<Error>)
      ensures Valid()
      ensures this.items == items && this.fault == fault
      ensures pos == 0 && pulls == 0
    {
      this.items := items;
      this.fault := fault;
      pos := 0;
      pulls := 0;
    }

    /**
     * `next()`. Exhaustion is idempotent: once the elements are used up, every
     * further pull returns the same end result and the position stays put.
     */
    method Next() returns (r: Result<IterResult<T>>)
      requires Valid()
      modifies this
      ensures Valid()
      ensures r == old(Upcoming())
      ensures pos == if old(pos) < |items| then old(pos) + 1 else old(pos)
      ensures pulls == old(pulls) + 1
    {
      pulls := pulls + 1;
      if pos < |items| {
        r := Success(Item(items[pos]));
        pos := pos + 1;
      } else {
        r := EndResult();
      }
    }
  }
}
