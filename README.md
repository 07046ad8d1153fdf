# ts-class-iter-exp operators in Dafny

A model of the iterator operators of ts-class-iter-exp, a TypeScript library of
lazy operators over JavaScript iterators, with proofs about the model. It covers:

- the accumulators, generators and closure factories of `iter.ts`;
- the standalone operators in `lib/operators/`: `takeWhile`, `dropWhile`,
  `throwWhenDone`, `forEach`, `done` and `pipe`;
- `pipify` from `lib/pipify.ts`.

The model is built like this:

- **Collections.** A collection is a `Protocol.Cursor`. It holds a finite
  sequence of elements, a position, and a ghost count of `next()` calls. An
  optional fault makes the pull past the last element throw instead of
  reporting `done`. This is how an exception from the wrapped iterator enters
  the model.
- **Generators.** A generator is modelled by a method that drains it as
  `Array.from` does. The method returns what the generator yielded, how it
  ended (`Completed` or `Threw(error)`), and where the collection was left.
- **`done`.** `done` is the one exception to this rule: its callback depends
  on how far the consumer reads. Its method takes the number of values the consumer asks for.
- **Closure factories.** Each factory that returns a stateful callback is a
  class: `enumerate`, `scan`, `dropWhile` and `distinctUntilChanged`. Its
  fields are the captured variables, its constructor is the factory call, and
  `Call` is one invocation of the callback. A driver applies the callback to a
  sequence as `map`/`filter` do. The `throwWhenDone` iterator object is a
  class too.
- **Specification functions.** Each operation is tied to pure functions:
  - `Prefixes.FirstFailure` and friends for `takeWhile`/`dropWhile`;
  - `Generators.Pairs`, `Generators.Chunks` and `Generators.Leaves`;
  - `Closures.Indexed`, `Closures.RunningFold` and `Closures.Distinct`;
  - `Accumulators.EntriesMap`, `Accumulators.FindFirst` and `Accumulators.FindLast`;
  - `Pipeline.Compose`.

  Lemmas prove what these functions promise.
- **Values.** JavaScript `undefined` is `None`. An exception is an
  `Error(name, message)`. User callbacks are Dafny functions:
  - predicates, selectors, comparators and accumulators are total;
  - a default-value getter returns a `Result`, since it may throw;
  - a `throwFunction` is the error it throws.

## Model

| member | source | states |
|---|---|---|
| Protocol.Cursor.constructor | iter.ts:146 | `toIterator` over an array: a fresh iterator at position 0 that has not been pulled |
| Protocol.Cursor.Next | iter.ts:151-152 | `iterator.next()`: the element at the position, advancing it, or at the end `done` (or the iterator's exception) with the position left where it is; each call counts one pull |
| Prefixes.FirstFailure | lib/operators/take-while.ts:14 | the returned index is at most the length, every element before it passes, and the element at it fails |
| Prefixes.PassingPrefixIsLongest | lib/operators/take-while.ts:12-18 | every prefix made only of passing elements is a prefix of the kept prefix, so the kept one is the longest |
| Prefixes.TakeAndDropSplit | lib/operators/drop-while.ts:6-15 | the prefix `takeWhile` keeps and the suffix `dropWhile` keeps concatenate to the input; every prefix element passes; a non-empty suffix starts with a failing element |
| TakeWhileOperator.TakeWhile | lib/operators/take-while.ts:9-19 | yields the longest passing prefix; pulls prefix length + 1 times and never after the first failing element; the predicate receives every pulled value including the exhausted `undefined`; a fault at the end propagates. The copy at iter.ts:400-410 is the same code |
| TakeWhileOperator.ExhaustionReachesPredicate | lib/operators/take-while.ts:14 | when every element passes and the collection ends normally, the predicate's last argument is `undefined` |
| TakeWhileOperator.UndefinedReachesPredicateExample | lib/operators/take-while.ts:14 | for `[1]` and `x < 5` the predicate receives `1`, then `undefined` |
| TakeWhileOperator.TakeWhileCheckingDone | lib/operators/take-while.ts:12-18 | the corrected generator: same output and pulls, but the predicate receives only collection values |
| DropWhileOperator.DropWhileFilter.constructor | lib/operators/drop-while.ts:6-7 | `found` starts true and the predicate has not been called |
| DropWhileOperator.DropWhileFilter.Call | lib/operators/drop-while.ts:8-14 | while `found`, sets `found` to the predicate's verdict and returns its negation; afterwards returns true without calling the predicate |
| DropWhileOperator.Filter | lib/operators/drop-while.ts:6-15 | a fresh filter keeps exactly the suffix from the first failing element; the predicate is called on the elements up to and including that one; a filter that has already accepted keeps everything. The copy at iter.ts:576-585 is the same code |
| DropWhileOperator.FreshFilterBelow5 | iter.ts:587 | `[1,2,3,3,4,4,4,5,6,7]` filtered with a fresh `dropWhile(x < 5)` gives `[5,6,7]` |
| DropWhileOperator.FreshFilterBelow0 | iter.ts:588 | with `x < 0` the whole list is kept |
| DropWhileOperator.FreshFilterBelow100 | iter.ts:589 | with `x < 100` nothing is kept |
| ThrowWhenDoneOperator.IteratorIsDone | lib/operators/throw-when.done.ts:4 | a `TypeError` with message "Iterator is done!" |
| ThrowWhenDoneOperator.ThrowWhenDone.constructor | lib/operators/throw-when.done.ts:4-6 | wraps the collection with the given or default `throwFunction`; the flag starts false |
| ThrowWhenDoneOperator.ThrowWhenDone.Next | lib/operators/throw-when.done.ts:8-15 | before the flag is set: returns the wrapped iterator's result, the exhausted one included, and sets the flag exactly on that result; a throw from the wrapped iterator passes through and leaves the flag alone. Once the flag is set: throws the `throwFunction` error, does not pull, and the flag stays set |
| ThrowWhenDoneOperator.ToArray | lib/operators/throw-when.done.ts:7-16 | draining a fresh guard collects the remaining elements, pulling the wrapped iterator once per element plus once; draining it again throws at the first pull without pulling the wrapped iterator |
| ThrowWhenDoneOperator.DrainGuardedThreeTimes | main-throw.ts:5-16 | three drains of a guarded `[1,2,3]` give `[1,2,3]`, then the default "Iterator is done!" error twice |
| ForEachOperator.ForEach | lib/operators/for-each.ts:6-15 | the iteratee receives every element exactly once, in order, and never the exhausted result's value; the collection is pulled once per element plus once |
| DoneOperator.Done | lib/operators/done.ts:4-13 | yields the elements in order; the callback runs exactly once, after the last element, when the consumer reads past the end and the collection ends normally, and never otherwise; the collection advances by the values yielded, with no pull after exhaustion |
| Accumulators.EntriesMap | iter.ts:150-156 | the keys of the built object are exactly the keys of the entries |
| Accumulators.LastEntryWins | iter.ts:154 | a key maps to the value of its last entry |
| Accumulators.FromEntries | iter.ts:145-158 | drains the collection into `EntriesMap` of its elements (so `{}` for none), or propagates its exception |
| Accumulators.FindFirst | iter.ts:176-182 | the index of the earliest match, or no index when nothing matches |
| Accumulators.FindLast | iter.ts:246-256 | the index of the latest match, or no index when nothing matches |
| Accumulators.FirstOrDefault | iter.ts:172-184 | returns the earliest match and stops pulling right after it; with no match, drains the collection and returns the getter's result or throw |
| Accumulators.NotFound | iter.ts:216 | a `TypeError` with message "Value is not found in the collection!" |
| Accumulators.First | iter.ts:216-218 | `firstOrDefault` with a getter that throws "Value is not found in the collection!" by default, with the same pulls: it stops right after the first match, or drains the collection when nothing matches |
| Accumulators.LastOrDefault | iter.ts:241-257 | drains the collection and returns the latest match, or the getter's result or throw when nothing matched |
| Accumulators.Last | iter.ts:289-291 | `lastOrDefault` with a getter that throws "not found" by default; it always drains the collection, pulling once per element plus once |
| Accumulators.EmptySearchExamples | iter.ts:200-202 | on an empty collection, `firstOrDefault` with a getter returns the getter's value and `first` throws "not found" |
| Accumulators.MatchSearchExamples | iter.ts:172-184 | on inputs chosen for the model: `first([1,2,3], x > 10, () => 42)` returns the fallback 42; `last([1,2,3,4], odd)` returns 3 |
| Accumulators.Sum | iter.ts:346-350 | the reducer's initial value is 0 |
| Accumulators.Count | iter.ts:359-361 | the reducer's initial value is 0 |
| Accumulators.SumReduces | iter.ts:346-353 | reducing with `sum(selector)` gives the sum of the selected numbers |
| Accumulators.CountReduces | iter.ts:359-364 | reducing with `count()` gives the number of elements |
| Generators.DefaultIfEmpty | iter.ts:372-387 | yields exactly the elements in order; the getter runs only for an empty collection, and its value or throw becomes the return value, not a yielded element |
| Generators.DefaultIfEmptyYielding | iter.ts:372-387 | the corrected generator: an empty collection yields the getter's value; it drains the collection, pulling once per element plus once |
| Generators.DefaultIsReturnedNotYielded | iter.ts:389 | `Array.from(defaultIfEmpty([], () => 'Empty.'))` collects `[]` as written and `['Empty.']` as corrected |
| Generators.Pairs | iter.ts:422-441 | max(0, n-1) pairs, the i-th being (x_i, x_{i+1}) |
| Generators.Pairwise | iter.ts:422-441 | yields `Pairs` of the elements, draining the collection once |
| Generators.Chunks | iter.ts:459-473 | the chunks concatenate to the input; all but the last have exactly `chunkSize` elements; the last has 1 to `chunkSize`; none for an empty input |
| Generators.ChunksUnique | iter.ts:459-473 | any split with those properties is `Chunks`, so they define it |
| Generators.ChunksExample | iter.ts:476-479 | `[1..5]` by 2 is `[[1,2],[3,4],[5]]`; `[1..5]` three times over by 3 is five chunks of three; `[1,2]` by 3 is `[[1,2]]`; an empty collection gives no chunks |
| Generators.ChunkSizeError | iter.ts:455 | a `TypeError` whose message is "Expected positive finite chunk size, got " followed by the size and "." |
| Generators.ChunkSizeErrorExamples | iter.ts:480-481 | the messages for sizes -3 and 0 end in "got -3." and "got 0." |
| Generators.Chunkify | iter.ts:453-474 | a chunk size of 0 or less throws "Expected positive finite chunk size, got N." without pulling; otherwise yields `Chunks` of the elements; a fault loses the last buffer |
| Generators.LeavesAppend | iter.ts:483-498 | flattening distributes over concatenation |
| Generators.LeavesOfFlat | iter.ts:494-496 | a collection with no nesting flattens to its own values |
| Generators.FlattenIdempotent | iter.ts:483-498 | flattening the flattened output changes nothing |
| Generators.LeavesExample | iter.ts:483-497 | on inputs chosen for the model: `[[2,3],2,[[9,1]]]` flattens to `[2,3,2,9,1]` and an empty collection to nothing |
| Generators.FlattenDeep | iter.ts:483-498 | yields the leaves depth first, left to right, recursing into each nested collection |
| Closures.Indexed | iter.ts:529-536 | element j is paired with `from + j` |
| Closures.IndexedAppend | iter.ts:538-541 | one counter over two sequences indexes the second after the first |
| Closures.Enumerate.constructor | iter.ts:529-530 | the counter starts at 0 |
| Closures.Enumerate.Call | iter.ts:531-535 | returns `[i, value]` and increments `i` |
| Closures.MapEnumerate | iter.ts:538-541 | mapping with the callback gives `Indexed` from the counter's current value, and advances it by the length |
| Closures.EnumerateExamples | iter.ts:538-541 | a fresh callback numbers from 0; a reused one continues counting |
| Closures.RunningFold | iter.ts:553-561 | output i is the accumulator applied to output i-1 (or the seed) and element i |
| Closures.ScanOutput | iter.ts:550-562 | one output per input |
| Closures.RunningFoldIsPrefixFolds | iter.ts:558 | output i is the left fold of the first i+1 elements |
| Closures.IdentitySeedIsUnseeded | iter.ts:550-562 | a seed that is a left identity of the accumulator gives the same outputs as no seed |
| Closures.Scan.constructor | iter.ts:551-552 | `accumulatedSet` is whether a seed was given |
| Closures.Scan.Call | iter.ts:553-561 | the first unseeded call returns the value; every other call returns the accumulator applied to the accumulation and the value, and stores it |
| Closures.MapScan | iter.ts:564-569 | mapping with the callback gives `ScanOutput` from its state, and leaves the last output as the accumulation |
| Closures.ScanExamples | iter.ts:564 | `[1..5]` with `a + v*2` gives `[1,5,11,19,29]`; on inputs chosen for the model (the seeded examples at iter.ts:565-566 use a string seed), `[1,2,3]` with `+` from 0 gives `[1,3,6]` and an empty input gives `[]` |
| Closures.DistinctHasNoRepeats | iter.ts:601-616 | no two consecutive kept values compare equal; the first does not compare equal to the starting state; every kept value comes from the input |
| Closures.DistinctKeepsRepeatFree | iter.ts:610-614 | values with no repeats all pass |
| Closures.DistinctIdempotent | iter.ts:601-616 | filtering twice with fresh callbacks equals filtering once, for any comparator |
| Closures.DistinctUntilChanged.constructor | iter.ts:601-603 | not initialized, no previous value; the comparator is the one given, `===` (Dafny `==`) by default |
| Closures.DistinctUntilChanged.Call | iter.ts:604-615 | the first value is kept; later ones are kept iff the comparator says they differ from `previous`, which is updated only when a value is kept |
| Closures.FilterDistinct | iter.ts:618-627 | filtering gives `Distinct` from the callback's state; `previous` ends as the last kept value |
| Closures.DistinctValueExamples | iter.ts:618-622 | with the default comparator, `[1,1,2,2,3,3]` gives `[1,2,3]`, a run of ones gives `[1]`, `[]` gives `[]` |
| Closures.DistinctObjectExamples | iter.ts:619-620 | six distinct objects are all kept under the default `===`; a comparator of `v` keeps one per run |
| PipifyOperators.Pipify | lib/pipify.ts:9-24 | the curried operator is named after the operator with `Pipified` appended |
| PipifyOperators.PipifyApplies | lib/pipify.ts:11-18 | the pipe operator made from `args` is named with `Piped` appended, and applying it to an iterator gives `operator(iterator, ...args)` |
| PipifyOperators.UncurryPipify | lib/pipify.ts:11-14 | calling the curried form with the arguments and then the iterator agrees with the operator everywhere |
| Pipeline.ComposeFirst | lib/operators/pipe.ts:22-24 | the first operator is applied to the initial iterator and the rest to its result |
| Pipeline.ComposeAppend | lib/operators/pipe.ts:22-24 | piping through `ops1 ++ ops2` is piping through `ops2` the result of `ops1` |
| Pipeline.ComposeThree | lib/operators/pipe.ts:22-24 | three operators nest as `op3(op2(op1(it)))` |
| Pipeline.Pipe | lib/operators/pipe.ts:20-26 | returns `Compose` of the operators, applied in list order, over the collection's iterator; nothing is modified |
| Pipeline.PipeNothing | lib/operators/pipe.ts:21-25 | with no operators the result is the collection's own iterator |
| Pipeline.PipifiedPipeline | main-pipe.ts:13-22 | a pipeline of two pipified operators calls each operator on the previous result and its own arguments |
| Pipeline.PipeDoesNotPull | lib/operators/pipe.ts:20-26 | `pipe` itself never calls `next()`: the cursor handed in keeps its position and pull count |

## Left out

- `range`, `objectKeys`, `objectValues`, `objectEntries` (iter.ts:51-134): producers that depend on floating-point steps, infinite ranges and prototype-chain reflection.
- `tryCatch`, `of` and the top-level `console.log` calls in `iter.ts`: console I/O and thin wrappers over the iterare library, whose code is not part of this model.
- `lib/operators/map.ts`, `lib/operators/filter.ts`, `lib/iterate.ts`, `lib/iterator-with-operators.ts` and `lib/add/operators/*.ts`: delegation to iterare and prototype patching. Where a model needs `map`/`filter`, the drivers in `Closures` and `DropWhileOperator.Filter` apply the callback to a sequence.
- `main-pipe.ts`, `main-throw.ts`, `main-done-throw.ts`: demo drivers. Only their expected results are restated, as examples.
- Laziness: the generators are drained to completion. Only `DoneOperator.Done` models a consumer that stops early, because `done`'s callback depends on it. The other generators pull as they yield, so for them such a consumer sees a prefix of the yielded values and none of what happens at the end: the last pull, the end's exception, `defaultIfEmpty`'s getter, and `takeWhile`'s predicate call on `undefined`.
- User callbacks that throw: predicates, selectors, mappers, comparators and accumulators are total functions. Only default-value getters, `throwNotFound` and `throwFunction` throw in the model. A throwing `iteratee`, `doneCallback` or pipe operator is not modelled.
- ThrowWhenDoneOperator.ThrowWhenDone.Next: a `throwFunction` that returns instead of throwing (its type is `() => never`) would let `next()` pull again; the model assumes it always throws.
- Number semantics: JavaScript numbers are `int`. The model does not cover floating-point sums in `sum`, a non-integer or `NaN` chunk size in `chunkify`, or the counter of `enumerate` losing precision.
- Generators.Chunkify: the message prints the chunk size in its integer decimal form only.
- Closures.Scan.constructor: the overload whose accumulation type differs from the element type (`scan<T, A>`) is not modelled. Seed and elements share one type, and passing `undefined` explicitly as the seed is not covered.
- Accumulators.FromEntries: keys are compared as `K` values. JavaScript's conversion of property keys to strings, and the special `__proto__` key, are not modelled.
- Generators.FlattenDeep: nested collections are the `Nested` case of a tagged datatype, standing in for the run-time `isIterable`/`isIterator` test. That test comes from iterare and is not part of this model. So nested iterators that throw, and strings, which are themselves iterable in JavaScript, are not covered.
- PipifyOperators.Pipify: when the operator is invoked cannot be stated about pure functions. That `pipify` and the argument application do not call the operator is therefore not modelled. Only the values and names of the curried functions are.
- Pipeline.Pipe: the typed overloads that let each stage change the element type are compile-time only. Every stage maps one iterator type to itself.
- Generators.Chunkify: the chunk-size check sits in the generator's body, so the error is thrown at the first `next()`, not when `chunkify` is called. The model shows it as the outcome of the run, before any pull.

- Pipeline.PipeDoesNotPull: stages are pure `In -> Out` functions, so a stage that pulls its input when it is applied (an eager operator, such as a pipified `firstOrDefault`) is not modelled; the lemma covers only `pipe`'s own loop.

## Findings

| source | as written | input that shows it | evidently intended | confidence | as-written member | corrected member |
|---|---|---|---|---|---|---|
| iter.ts:384-386 | `defaultIfEmpty` `return`s the default, so the default is the generator's return value, which `Array.from`, `for...of` and spreading all ignore | `Array.from(defaultIfEmpty([], () => 'Empty.'))` gives `[]` | an empty collection yields the default, as the operator's name and its "default ok" test at iter.ts:389 suggest | medium, not executed | Generators.DefaultIsReturnedNotYielded | Generators.DefaultIfEmptyYielding |
| lib/operators/take-while.ts:14 | the predicate is called on `result.value` before `result.done` is looked at, so at exhaustion it receives `undefined`, which its type `(value: T) => boolean` excludes | `Array.from(takeWhile([{ v: 1 }], (x) => x.v < 5))` throws a TypeError on `undefined.v` instead of giving `[{ v: 1 }]` | look at `done` first, as `done = !!result.done \|\| !predicate(result.value)` would; the same holds for the copy at iter.ts:405 | medium, not executed | TakeWhileOperator.ExhaustionReachesPredicate | TakeWhileOperator.TakeWhileCheckingDone |
