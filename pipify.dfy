/**
 * `pipify(operator)` from `lib/pipify.ts`: turns an operator that takes the
 * iterator first and its arguments after it into a curried one, which takes
 * the arguments and returns a pipe operator waiting for the iterator. JavaScript
 * functions are modelled as values with the `name` property `pipify` sets on
 * them; an operator's argument list is one value of type `Args`.
 */
module PipifyOperators {
  /** A stage of `pipe`: a function from an iterator to an iterator. */
  datatype PipeOperator<-In, +Out> = PipeOperator(name: string, apply: In -> Out)

  /** An operator called as `operator(iterator, ...args)`. */
  datatype PipableOperator<-In, -Args, +Out> = PipableOperator(name: string, run: (In, Args) -> Out)

  /** A curried operator called as `operator(...args)(iterator)`. */
  datatype PipifiedOperator<-In, -Args, +Out> = PipifiedOperator(name: string, apply: Args -> PipeOperator<In, Out>)

  /** The curried form is named after the operator with `Pipified` appended. */
  function Pipify<In, Args, Out>(operator: PipableOperator<In, Args, Out>): (p: PipifiedOperator<In, Args, Out>)
    ensures p.name == operator.name + "Pipified"
  {
    PipifiedOperator(operator.name + "Pipified",
      (args: Args) => PipeOperator(operator.name + "Piped", (it: In) => operator.run(it, args)))
  }

  /**
   * Every pipe operator the curried form returns is named after the operator
   * with `Piped` appended, and applying it to an iterator calls the operator
   * on that iterator and the captured arguments.
   */
  lemma PipifyApplies<In, Args, Out>(operator: PipableOperator<In, Args, Out>, args: Args, it: In)
    ensures Pipify(operator).apply(args).name == operator.name + "Piped"
    ensures Pipify(operator).apply(args).apply(it) == operator.run(it, args)
  {
  }

  /** The inverse of currying: call the curried form with the arguments, then with the iterator. */
  function Uncurry<In, Args, Out>(p: PipifiedOperator<In, Args, Out>): PipableOperator<In, Args, Out> {
    PipableOperator(p.name, (it: In, args: Args) => p.apply(args).apply(it))
  }

  /** Uncurrying a pipified operator gives back a function that agrees with the operator everywhere. */
  lemma UncurryPipify<In, Args, Out>(operator: PipableOperator<In, Args, Out>, it: In, args: Args)
    ensures Uncurry(Pipify(operator)).run(it, args) == operator.run(it, args)
    ensures Uncurry(Pipify(operator)).name == operator.name + "Pipified"
  {
  }
}
