/**
 * `pipe(collection, ...operators)` from `lib/operators/pipe.ts`: turns the
 * collection into an iterator and threads it through the operators, left to
 * right. Iterators are values of a type `I`; the typed overloads that let each
 * stage change the element type are compile-time only, so every stage here maps
 * `I` to `I`.
 */
module Pipeline {
  import opened PipifyOperators
  import opened Protocol

  /** The iterator after the stages `operators`, applied first to last. */
  function Compose<I>(it: I, operators: seq<PipeOperator<I, I>>): I
    decreases |operators|
  {
    if operators == [] then it
    else operators[|operators| - 1].apply(Compose(it, operators[..|operators| - 1]))
  }

  /** The first stage is applied to the iterator itself, and the rest to its result. */
  lemma {:induction false} ComposeFirst<I>(it: I, op: PipeOperator<I, I>, operators: seq<PipeOperator<I, I>>)
    ensures Compose(it, [op] + operators) == Compose(op.apply(it), operators)
    decreases |operators|
  {
    if operators != [] {
      var all := [op] + operators;
      assert all[..|all| - 1] == [op] + operators[..|operators| - 1];
      ComposeFirst(it, op, operators[..|operators| - 1]);
    } else {
      assert ([op] + operators)[..0] == [];
    }
  }

  /** Piping through `ops1 + ops2` is piping through `ops2` what piping through `ops1` gave. */
  lemma {:induction false} ComposeAppend<I>(it: I, ops1: seq<PipeOperator<I, I>>, ops2: seq<PipeOperator<I, I>>)
    ensures Compose(it, ops1 + ops2) == Compose(Compose(it, ops1), ops2)
    decreases |ops2|
  {
    if ops2 == [] {
      assert ops1 + ops2 == ops1;
    } else {
      var all := ops1 + ops2;
      assert all[..|all| - 1] == ops1 + ops2[..|ops2| - 1];
      ComposeAppend(it, ops1, ops2[..|ops2| - 1]);
    }
  }

  /** Three stages nest as `op3(op2(op1(it)))`. */
  lemma ComposeThree<I>(it: I, op1: PipeOperator<I, I>, op2: PipeOperator<I, I>, op3: PipeOperator<I, I>)
    ensures Compose(it, [op1, op2, op3]) == op3.apply(op2.apply(op1.apply(it)))
  {
    var ops := [op1, op2, op3];
    assert ops[..2] == [op1, op2] && ops[..2][..1] == [op1] && ops[..2][..1][..0] == ops[..0];
    assert Compose(it, [op1]) == op1.apply(it);
    assert Compose(it, [op1, op2]) == op2.apply(op1.apply(it));
  }

  /**
   * The loop of `pipe`. `toIterator` is the conversion of the collection into
   * an iterator. The loop only applies the stages; it never calls `next()`
   * itself.
   */
  method Pipe<C, I>(collection: C, toIterator: C -> I, operators: seq<PipeOperator<I, I>>)
    returns (it: I)
    ensures it == Compose(toIterator(collection), operators)
  {
    it := toIterator(collection);
    for j := 0 to |operators|
      invariant it == Compose(toIterator(collection), operators[..j])
    {
      assert operators[..j + 1][..j] == operators[..j];
      it := operators[j].apply(it);
    }
    assert operators[..|operators|] == operators;
  }

  /** With no operators, `pipe` returns the collection's own iterator. */
  method PipeNothing<C, I>(collection: C, toIterator: C -> I) returns (it: I)
    ensures it == toIterator(collection)
  {
    it := Pipe(collection, toIterator, []);
  }

  /** A pipeline of pipified operators calls each operator on the previous one's result and its own arguments. */
  lemma PipifiedPipeline<I, A1, A2>(it: I, op1: PipableOperator<I, A1, I>, args1: A1,
                                    op2: PipableOperator<I, A2, I>, args2: A2)
    ensures Compose(it, [Pipify(op1).apply(args1), Pipify(op2).apply(args2)])
            == op2.run(op1.run(it, args1), args2)
  {
    var s1: PipeOperator<I, I> := Pipify(op1).apply(args1);
    var s2: PipeOperator<I, I> := Pipify(op2).apply(args2);
    var ops := [s1, s2];
    assert ops[..1] == [s1] && ops[..1][..0] == ops[..0];
    assert Compose(it, [s1]) == s1.apply(it);
    PipifyApplies(op1, args1, it);
    PipifyApplies(op2, args2, op1.run(it, args1));
  }

  /**
   * `pipe` itself never calls `next()`: the cursor handed in is where it was
   * and has not been pulled. Stages are pure functions here, so a stage that
   * pulls when it is applied is outside this model.
   */
  method PipeDoesNotPull<T>(source: Cursor<T>, operators: seq<PipeOperator<Cursor<T>, Cursor<T>>>)
    returns (it: Cursor<T>)
    ensures it == Compose(source, operators)
    ensures source.pos == old(source.pos) && source.pulls == old(source.pulls)
  {
    it := Pipe(source, (c: Cursor<T>) => c, operators);
  }
}
