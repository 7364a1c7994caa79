# lemonad in Dafny

A verified model of the core of Lemonad (`lib/lemonad.js`), a small
functional-programming library for JavaScript. The model covers three parts.

- **The reference cell** (`Refs`). `L.Ref` holds a value and an optional validator.
  `L.RefProtocol`, `L.WatchableProtocol` and `L.CASProtocol` are mixed into
  its prototype, and here they are one class, `Ref`. The watcher map is a
  single module-level variable that every cell reaches through the prototype.
  It is modelled as one `Registry` object that every `Ref` points to. So a
  watcher added through one cell is notified by every cell. Watcher callbacks
  are foreign code. Each call `watcher(key, old, new)` is recorded as a `Note`
  in the registry's ghost `log`. Watcher keys are property-name strings. The watcher map's key order, which is the
  order JavaScript enumerates it in, is kept in `order`.
- **The state-action pipeline** (`Monadology`). `L.def` builds
  `arg => state => {value, state}` and calls both functions as
  `(state, arg)`. `L.actions(a1, ..., an, k)(s0)` folds the bound actions over
  the state and collects their values. It drops the `null`/`undefined` ones and
  returns `k(values...)(finalState)`. The `_.reduce` of the source is proved
  equal to a reference semantics (`Thread`, `Emitted`). In that semantics each
  action sees exactly the state its predecessor produced.
- **The sequence utilities** (`Basics`, `Monotone`, `Slicing`, `Applicative`, `Paths`):
  - `cat`, `cons`, `butLast`, `second`, `mapcat`, `interpose`, `repeat`
  - the four monotonicity checks
  - `splitAt`, `takeSkipping`, `takeWhile`, `dropWhile`, `splitWith`
  - `conjoin`, `disjoin`, `keep`, `keepIndexed`, `remove`, `maxKey`, `reductions`, `fnull`
  - `assoc`/`update`, which write in place into objects on a modelled heap

A few modelling choices apply throughout:

- JavaScript `null`/`undefined` is `Option.None`.
- A thrown exception is `Result.Failure`. It carries the source's own message,
  or a `TypeError` where the engine would raise one.
- The `_.isArray` checks see an argument as a `Coll`: either an `Array` or
  `NotArray`.
- The code decides where other descriptions of the library differ:
  - the watcher registry is shared by all cells, not one per cell (line 524);
  - `def` passes the state first and the argument second (line 491);
  - `compareAndSet` answers `undefined`, not `false`, on a mismatch (line 595);
  - `repeat` throws on a negative count (line 81);
  - `assoc` mutates its argument (line 164);
  - `splitAt` and `takeSkipping` do not check their arguments (lines 168-184).

## Model

| member | source | states |
|---|---|---|
| Values.Somes | lib/lemonad.js:514 | `_.filter(xs, L.existy)` keeps exactly the present values of `xs`. Every result element came from a `Some`, and every `Some` value is in the result. It is never longer than `xs`, and equally long when all entries are present. |
| Values.SomesAppend | lib/lemonad.js:514 | Filtering out absent values distributes over concatenation. |
| Values.SomesOfPresent | lib/lemonad.js:514 | Filtering a list with no absent value gives it back unchanged. |
| Values.FoldLeftSnoc | lib/lemonad.js:504-512 | One more element costs one more step of the left fold `_.reduce`. |
| Basics.ConcatAppend | lib/lemonad.js:36-40 | Flattening distributes over concatenation of the parts. |
| Basics.Cat | lib/lemonad.js:36-40 | `cat()` with no argument raises a TypeError. Otherwise the result is the flattening of all arguments and starts with the first one. |
| Basics.Cons | lib/lemonad.js:55-57 | `cons(h, t)` is one longer than `t`, starts with `h` and continues with `t`. |
| Basics.ButLastOf | lib/lemonad.js:63 | `slice(0, -1)`: adding back the last element restores the input. The empty array stays empty. |
| Basics.ButLast | lib/lemonad.js:60-64 | A non-array throws. The empty array gives the empty array. A non-empty array gives one element fewer, and adding back the last element restores the input. |
| Basics.Second | lib/lemonad.js:86-90 | A non-array throws. Otherwise the result is the element at index 1, or `undefined` below two elements. |
| Basics.MapCat | lib/lemonad.js:315-317 | An empty collection raises `cat`'s TypeError. Otherwise the result is the first mapped part followed by the flattening of the others. |
| Basics.PairsLayout | lib/lemonad.js:73 | Flattening the pairs `[e, x]` puts `coll[i]` at `2i` and `x` at `2i+1`. |
| Basics.Interpose | lib/lemonad.js:67-74 | A non-array throws. At most one element comes back unchanged. For n >= 2 the length is 2n-1, `coll[i]` is at `2i`, and the separator is at every odd index. |
| Basics.Repeat | lib/lemonad.js:80-84 | A missing or negative count throws. Otherwise there are exactly `times` elements, each equal to `elem`. |
| Monotone.ChainOrdersAllPairs | lib/lemonad.js:92-146 | When every adjacent pair satisfies the comparison, every ordered pair does. |
| Monotone.Monotone | lib/lemonad.js:92-146 | The corrected shared loop answers true iff every adjacent pair satisfies the comparison, for every argument count. |
| Monotone.MonotoneAsWritten | lib/lemonad.js:92-104 | As written, exactly two arguments throw "cannot take the second element of a non-array". Every other count answers the adjacent-pair check. |
| Monotone.Increasing | lib/lemonad.js:92-104 | The corrected behaviour (see Findings; as written, two arguments throw): true iff every adjacent pair is strictly increasing. |
| Monotone.Decreasing | lib/lemonad.js:106-118 | The corrected behaviour (see Findings; as written, two arguments throw): true iff every adjacent pair is strictly decreasing. |
| Monotone.IncreasingOrEq | lib/lemonad.js:120-132 | The corrected behaviour (see Findings; as written, two arguments throw): true iff no adjacent pair decreases. |
| Monotone.DecreasingOrEq | lib/lemonad.js:134-146 | The corrected behaviour (see Findings; as written, two arguments throw): true iff no adjacent pair increases. |
| Slicing.SliceIndex | lib/lemonad.js:169 | The cut point of `slice` with index n: n itself inside the array, clamped at the end, and counted from the end when negative. |
| Slicing.SplitAt | lib/lemonad.js:168-170 | The two parts always concatenate back to `coll`. An in-range index is the first part's length. Past the end, the second part is empty. A negative index leaves that many elements in the second part. |
| Slicing.TakeSkipping | lib/lemonad.js:175-184 | Element j of the result is `coll[j*n]`. The count is the ceiling of length/n. An empty collection gives the empty result. |
| Slicing.Span | lib/lemonad.js:375-395 | The loop's stopping index: every element before it satisfies `pred`, and the element at it, if any, fails `pred`. |
| Slicing.TakeWhile | lib/lemonad.js:386-395 | The result is the prefix of `coll` up to the first element failing `pred`. |
| Slicing.DropWhile | lib/lemonad.js:375-384 | The result is the suffix of `coll` from the first element failing `pred`. |
| Slicing.SplitWith | lib/lemonad.js:244-246 | The two parts concatenate back to `coll`. Every element of the first part satisfies `pred`. The second part is empty or starts with an element failing `pred`. |
| Applicative.AllHold | lib/lemonad.js:216-218 | True iff every predicate holds of the element. |
| Applicative.AnyHolds | lib/lemonad.js:232-234 | True iff some predicate holds of the element. |
| Applicative.Conjoin | lib/lemonad.js:211-221 | True iff every predicate holds of every element, so true on an empty collection. |
| Applicative.Disjoin | lib/lemonad.js:227-237 | True iff some predicate holds of some element, so false on an empty collection. |
| Applicative.DisjoinIsNotConjoinOfComplements | lib/lemonad.js:211-237 | `disjoin(ps)` is the negation of `conjoin` over the complements (`L.complement`) of `ps`. |
| Applicative.Keep | lib/lemonad.js:267-272 | Every result is a non-null answer of `pred` for some element. Every non-null answer appears in the result. The result is never longer than `coll`. |
| Applicative.KeepAppend | lib/lemonad.js:267-272 | `keep` distributes over concatenation of the collection. |
| Applicative.KeepIndexed | lib/lemonad.js:307-312 | Every result is a non-null answer of `pred(i, coll[i])` for some index, every non-null answer appears, and the result is never longer than `coll`. |
| Applicative.KeepIndexedAsKeep | lib/lemonad.js:307-312 | `keepIndexed` is `keep` over the (index, element) pairs, so it inherits `keep`'s order and multiplicity. |
| Applicative.KeepIndexedSnoc | lib/lemonad.js:307-312 | Appending one element appends `pred`'s answer for it, at the new last index, when that answer is present; so answers come in index order, each once. |
| Applicative.KeepAsFilter | lib/lemonad.js:267-272 | `keep` with a callback that answers the element or nothing is filtering. |
| Applicative.RemoveIsFilter | lib/lemonad.js:277-283 | `remove(pred, coll)` keeps exactly the elements failing `pred`, in order. |
| Applicative.Filter | lib/lemonad.js:277-283 | The reference filter: every kept element satisfies the predicate and comes from the input, and every input element satisfying it is kept. |
| Applicative.FilterAppend | lib/lemonad.js:277-283 | Filtering distributes over concatenation, so the kept elements stay in input order. |
| Applicative.Remove | lib/lemonad.js:277-283 | Every result element fails `pred` and comes from `coll`; every element of `coll` failing `pred` is in the result. |
| Applicative.Pick | lib/lemonad.js:295 | The two-argument `maxKey` returns an argument with the larger key, and the second one on a tie. |
| Applicative.FoldPick | lib/lemonad.js:297-301 | Folding the two-argument step never loses the greatest key. Once some element reaches the starting key, the result is an element that no later element reaches. |
| Applicative.MaxKey | lib/lemonad.js:288-302 | No argument gives `undefined`. Otherwise the result is an argument whose key is the greatest, and no later argument has an equal key, so ties go to the later argument. |
| Applicative.Reductions | lib/lemonad.js:363-373 | One result per element, where result k is the left fold of the first k+1 elements. |
| Applicative.ReductionsEndsWithFold | lib/lemonad.js:363-373 | The last of the reductions is the fold of the whole collection. |
| Applicative.Filled | lib/lemonad.js:415-418 | The filled list covers both the arguments and the defaults. A present argument is kept, an argument beyond the defaults is kept, and a missing or absent argument with a default is replaced by it. |
| Applicative.Fnull | lib/lemonad.js:408-422 | `fun` receives the arguments with each missing or `null`/`undefined` one replaced by its default. The list is extended to cover every default. |
| Paths.Get | lib/lemonad.js:161 | Reading a property throws exactly when the target is `undefined`. |
| Paths.Resolve | lib/lemonad.js:157-162 | The loop reaches the value at the end of the key path, or the TypeError of the first read from `undefined`. |
| Paths.Assoc | lib/lemonad.js:154-166 | A non-associative `obj` throws. A key path that is not an array throws `L.butLast`'s error and changes nothing. A failed walk throws and changes nothing. Otherwise the object reached through all but the last key gets the last key set to `value` in place; every other object is unchanged and `obj` itself is returned. A primitive target is left alone, and an `undefined` target throws. |
| Paths.Update | lib/lemonad.js:248-260 | As `assoc`, with the new value `fun(current)`, where the current value is `undefined` when the key is absent. |
| Monadology.Def | lib/lemonad.js:488-494 | For every argument `a` and state `s`, the bound action's next state is `stateFun(s, a)` and its value is `valueFun(s, a)`: the state comes first. |
| Monadology.Collect | lib/lemonad.js:505-510 | One step of the reduce: exactly one entry is appended, the earlier ones are kept, and it is the action's value on the current state; the state becomes the action's state. |
| Monadology.Run | lib/lemonad.js:504-512 | The reduce records one value, present or not, per action. |
| Monadology.CollectLength | lib/lemonad.js:504-512 | Each action of the reduce adds exactly one value entry. |
| Monadology.DefSteps | lib/lemonad.js:488-494 | An action made by `def` and bound to `a` moves the state `s` to `stateFun(s, a)` and yields `valueFun(s, a)`. The state comes first. |
| Monadology.Actions | lib/lemonad.js:496-518 | `k` receives exactly the present values, in action order. Its result is applied to the final state, which is the left-to-right threading of the actions from `s0`. |
| Monadology.RunMatchesReference | lib/lemonad.js:504-514 | The source's reduce computes the reference semantics. Its final state is `Thread`, and its values with absent ones dropped are `Emitted`. |
| Monadology.ThreadAppend | lib/lemonad.js:504-512 | Running a concatenated chain is running the second part from the first part's final state. |
| Monadology.EmittedAppend | lib/lemonad.js:504-514 | A concatenated chain yields the first part's values, then the second part's values from the first part's final state. |
| Monadology.ActionsAppend | lib/lemonad.js:496-518 | `actions` over a concatenated chain: `k` gets both parts' values in order and the final state of the second part. |
| Monadology.ActionsEmpty | lib/lemonad.js:496-518 | An empty chain calls `k()` and applies the result to the initial state. |
| Monadology.UnfoldChain | lib/lemonad.js:504-512 | A chain's first action runs on the initial state, and the rest continues from the state it produced. |
| Monadology.StackScenario | lib/lemonad.js:496-518 | A stack of actions: push 4, 5, 6 then pop three times. `k` receives 6, 5, 4 and the final stack is empty. |
| Monadology.PushOnlyScenario | lib/lemonad.js:496-518 | A chain whose only action yields nothing calls `k()` with the threaded state `[1]`. |
| Refs.Notes | lib/lemonad.js:527-530 | One notification pass: one call per registered key, in registration order, each with the same old and new value. |
| Refs.NotesAppend | lib/lemonad.js:527-530 | The calls for a concatenation of key lists are the calls for each list in turn. |
| Refs.Without | lib/lemonad.js:540 | `_.omit(watchers, key)` keeps exactly the other keys and drops `key`. A key that is not registered leaves the order as it was. No key is repeated. |
| Refs.WithoutAppend | lib/lemonad.js:540 | Removing a key distributes over concatenation, so the other watchers keep their notification order. |
| Refs.DistinctCardinality | lib/lemonad.js:532 | A key list without repeats is as long as the set of its keys. So the count `notify` returns is the number of watchers. |
| Refs.EachWatcherNotifiedOnce | lib/lemonad.js:527-530 | In one pass every registered watcher is called, no key is called twice, and no unregistered key is called. |
| Refs.Registry.constructor | lib/lemonad.js:524 | The shared map starts empty. |
| Refs.Ref.constructor | lib/lemonad.js:549-552 | A new cell holds `init` and the given validator, and points to the shared registry. |
| Refs.Ref.Notify | lib/lemonad.js:527-533 | Appends one note per registered key to the log, in registration order. Returns the number of watchers. |
| Refs.Ref.Watch | lib/lemonad.js:534-537 | Binds `key` to `fun` and overwrites an earlier binding, which keeps its place in the order. Returns `key`. |
| Refs.Ref.Unwatch | lib/lemonad.js:538-542 | Returns the previous binding, or `undefined`. Removes only that key. |
| Refs.Ref.SetValue | lib/lemonad.js:555-566 | A rejected value throws, and neither the value nor the log changes. An accepted value is committed, each watcher is notified once with the old and the new value, and the new value is returned. With no validator every value is accepted. |
| Refs.Ref.Swap | lib/lemonad.js:567-569 | Exactly `setValue(fun(current, args))`, including rejection by the validator. |
| Refs.Ref.Snapshot | lib/lemonad.js:570-572 | Returns the current value. |
| Refs.Ref.CompareAndSet | lib/lemonad.js:589-597 | When the current value equals `expected`, it behaves as `setValue(newVal)` and answers true, or throws if the value is rejected. Otherwise it answers `undefined` with the value and the log unchanged. |
| Refs.WatchersAreShared | lib/lemonad.js:575-577 | A watcher added through one cell is notified when another cell on the same registry commits a value. |
| Refs.ThreeWrites | lib/lemonad.js:555-566 | Three committed writes leave the last value. They log three notification passes in order, each carrying the value it replaced. |

## Left out

- Refs.Ref.Snapshot: returns the value itself. The shallow copy that `_.clone` makes of an object value, and the aliasing it prevents, are not modelled.
- Refs.Ref.Notify: watcher bodies are foreign code. A watcher that throws, or that changes the registry or the cell during a notification pass, is not modelled.
- Refs.Ref.Watch: keys are the property-name strings that `watchers[key]` produces (lines 535 and 539). Converting a non-string key is left to the caller: two objects both become "[object Object]" and `true` becomes "true". The effect this can have on `_.omit`'s comparison at line 540 is not modelled. Keys are also assumed not to be integer-like, since JavaScript enumerates those first in ascending order. Keys are also assumed not to name an `Object.prototype` property such as `toString`, which `watchers[key]` would find.
- Monadology.Actions: an action value that is an array is spliced into the value list by `L.cat` (line 507). Here values are single optional values.
- Basics.Cat: every argument is an array. A non-array argument, which `concat` would append as one element, is not modelled.
- Slicing.SplitAt: `_.take` and `_.drop` are taken as `slice(0, n)` and `slice(n)`, the Underscore behaviour of the library's time. The index is an integer: a fractional index, which `slice` truncates, is not modelled, and neither is a non-number index.
- Slicing.TakeSkipping: requires a positive step unless the collection is empty, because otherwise the loop never ends. The step is an integer: a fractional step, which reads `coll` at fractional indices and gets `undefined` there (lines 179-180), is not modelled, and neither is a non-number step.
- Applicative.RemoveIsFilter: elements are assumed not to be `null`/`undefined`. `remove` would drop those elements whatever `pred` says.
- Basics.Repeat: the count is an integer. A fractional count, for which `_.range` gives `Math.ceil(times)` copies (line 83), is not modelled.
- Applicative.MaxKey: keys are integers; fractional, `NaN` and non-number keys, and how `>` compares them, are not modelled. With no argument the source also calls `fun(undefined)` twice before answering `undefined`. The model answers `None` without calling `key`.
- Monotone.Monotone: arguments are integers. JavaScript's comparison of mixed types and of `NaN` is not modelled.
- Paths.Assoc: arrays and objects are property maps on a modelled heap. Getters and setters, the prototype chain, an array's `length`, characters read from a string, and strict mode are not modelled.
- `iterateUntil`: its loop has no termination guarantee, so it is not part of this model.
- Function plumbing with no contract beyond application is not part of this model: `meth`, `constantly`, `pipeline`, `compose`, `complement` (used here only by its meaning), `plucker`, `juxt`, `curry2`, `curry3`, `partial`, `partial2`, `partial$`, `frequencies`, `repeatedly`.
- Other helpers outside this model: `pour`, `into`, `interleave`, and the numeric predicates `isEven` to `isZero`.
- The commented-out monad example after the module (lines 618-655) is dead code and is not modelled. Its push and pop are re-expressed, in `def`'s real argument order, by `StackScenario`.
- Module export plumbing and `VERSION` are not modelled.
- Concurrency: the code is single-threaded, so `compareAndSet` is atomic by construction.

## Findings

| source | as written | input that shows it | evidently intended | confidence | as-written member | corrected member |
|---|---|---|---|---|---|---|
| lib/lemonad.js:95 | The two-argument shortcut calls `L.second(arguments)`. `arguments` is not an array, so `second` throws. The same happens at lines 109, 123 and 137. | `L.increasing(1, 2)` throws "cannot take the second element of a non-array" | compare the two arguments: `1 < 2`, so true | high, not executed | Monotone.MonotoneAsWritten | Monotone.Monotone |
