/** The state-action pipeline of lemonad's "Monadology" section:
    `L.def` and `L.actions` (lib/lemonad.js, lines 488-518).

    A bound action maps a state to a `Step`: an optional value (absent is
    `null`/`undefined`) and the next state. `actions(a1, ..., an, k)(s0)`
    threads `s0` through the actions left to right, collects their values,
    drops the absent ones, and returns `k(values...)(finalState)`. */
module Monadology {
  import opened Values

  datatype Step<S, V> = Step(value: Option<V>, state: S)

  /** The accumulator of the `_.reduce` in `actions`. */
  datatype Acc<S, V> = Acc(values: seq<Option<V>>, state: S)

  /** `L.def(stateFun, valueFun)`: `arg => state => {value, state}`. Both
      functions are called with the prior state first and the argument second. */
  function Def<S(!new), A(!new), V>(stateFun: (S, A) -> S, valueFun: (S, A) -> Option<V>): (act: A -> S -> Step<S, V>)
    ensures forall a, s :: act(a)(s).state == stateFun(s, a) && act(a)(s).value == valueFun(s, a)
  {
    (a: A) => (s: S) => Step(valueFun(s, a), stateFun(s, a))
  }

  /** An action built by `def` and bound to `a` takes the state `s` to
      `stateFun(s, a)`, yielding `valueFun(s, a)`. */
  lemma DefSteps<S(!new), A(!new), V>(stateFun: (S, A) -> S, valueFun: (S, A) -> Option<V>, a: A, s: S)
    ensures Def(stateFun, valueFun)(a)(s).state == stateFun(s, a)
    ensures Def(stateFun, valueFun)(a)(s).value == valueFun(s, a)
  {
  }

  /** One step of the reduce: run the action on the current state and append
      its value, present or not (`L.cat(values, undefined)` appends `undefined`). */
  function Collect<S, V>(acc: Acc<S, V>, action: S -> Step<S, V>): (r: Acc<S, V>)
    ensures |r.values| == |acc.values| + 1 && r.values[..|acc.values|] == acc.values
    ensures r.values[|acc.values|] == action(acc.state).value && r.state == action(acc.state).state
  {
    var result := action(acc.state);
    Acc(acc.values + [result.value], result.state)
  }

  /** The reduce of `actions` over the chain, from `{values: [], state: s0}`. */
  function Run<S, V>(acts: seq<S -> Step<S, V>>, s0: S): (r: Acc<S, V>)
    ensures |r.values| == |acts|
  {
    CollectLength(Acc([], s0), acts);
    FoldLeft(Collect, Acc([], s0), acts)
  }

  /** The reduce records one value, present or not, per action. */
  lemma {:induction false} CollectLength<S, V>(acc: Acc<S, V>, acts: seq<S -> Step<S, V>>)
    ensures |FoldLeft(Collect, acc, acts).values| == |acc.values| + |acts|
    decreases |acts|
  {
    if acts != [] {
      CollectLength(acc, acts[..|acts| - 1]);
    }
  }

  /** `L.actions(acts..., k)(s0)`. */
  function Actions<S, V, R>(acts: seq<S -> Step<S, V>>, k: seq<V> -> S -> R, s0: S): (r: R)
    ensures r == k(Emitted(acts, s0))(Thread(acts, s0))
  {
    var final := Run(acts, s0);
    RunMatchesReference(acts, s0);
    k(Somes(final.values))(final.state)
  }

  // Reference semantics: each action sees exactly the state its predecessor produced.

  /** The state after running `acts` from `s`. */
  function Thread<S, V>(acts: seq<S -> Step<S, V>>, s: S): S
  {
    if acts == [] then s else Thread(acts[1..], acts[0](s).state)
  }

  /** The present values the actions produce, in the order they run. */
  function Emitted<S, V>(acts: seq<S -> Step<S, V>>, s: S): seq<V>
  {
    if acts == [] then []
    else
      var step := acts[0](s);
      (if step.value.Some? then [step.value.value] else []) + Emitted(acts[1..], step.state)
  }

  /** Running two chains one after the other is running their concatenation. */
  lemma {:induction false} ThreadAppend<S, V>(a: seq<S -> Step<S, V>>, b: seq<S -> Step<S, V>>, s: S)
    ensures Thread(a + b, s) == Thread(b, Thread(a, s))
  {
    if a != [] {
      assert (a + b)[1..] == a[1..] + b;
      ThreadAppend(a[1..], b, a[0](s).state);
    } else {
      assert a + b == b;
    }
  }

  /** The values of a concatenated chain: those of the first part, then those
      of the second part started from the state the first part left. */
  lemma {:induction false} EmittedAppend<S, V>(a: seq<S -> Step<S, V>>, b: seq<S -> Step<S, V>>, s: S)
    ensures Emitted(a + b, s) == Emitted(a, s) + Emitted(b, Thread(a, s))
  {
    if a != [] {
      assert (a + b)[1..] == a[1..] + b;
      EmittedAppend(a[1..], b, a[0](s).state);
    } else {
      assert a + b == b;
    }
  }

  /** The reduce of `actions` computes the reference semantics: its final
      state is `Thread` and its present values are `Emitted`. */
  lemma {:induction false} RunMatchesReference<S, V>(acts: seq<S -> Step<S, V>>, s0: S)
    ensures Run(acts, s0).state == Thread(acts, s0)
    ensures Somes(Run(acts, s0).values) == Emitted(acts, s0)
    decreases |acts|
  {
    if acts != [] {
      var init, last := acts[..|acts| - 1], acts[|acts| - 1];
      assert acts == init + [last];
      RunMatchesReference(init, s0);
      FoldLeftSnoc(Collect, Acc([], s0), init, last);
      var before := Run(init, s0);
      var step := last(before.state);
      assert Run(acts, s0) == Acc(before.values + [step.value], step.state);
      ThreadAppend(init, [last], s0);
      EmittedAppend(init, [last], s0);
      assert [last][1..] == [];
      SomesAppend(before.values, [step.value]);
    }
  }

  /** Splitting a chain anywhere: the second part continues from the first
      part's final state and the continuation receives both parts' values. */
  lemma ActionsAppend<S, V, R>(a: seq<S -> Step<S, V>>, b: seq<S -> Step<S, V>>, k: seq<V> -> S -> R, s0: S)
    ensures Actions(a + b, k, s0) == k(Emitted(a, s0) + Emitted(b, Thread(a, s0)))(Thread(b, Thread(a, s0)))
  {
    ThreadAppend(a, b, s0);
    EmittedAppend(a, b, s0);
  }

  /** An empty chain calls `k()` and applies the result to the initial state. */
  lemma ActionsEmpty<S, V, R>(k: seq<V> -> S -> R, s0: S)
    ensures Actions([], k, s0) == k([])(s0)
  {
  }

  // A stack driven by actions: `push(e)` prepends and yields nothing,
  // `pop()` drops the head and yields it (`stack.slice(1)` and `stack[0]`).

  function PushState(stack: seq<int>, e: int): seq<int> { [e] + stack }
  function PushValue(stack: seq<int>, e: int): Option<int> { None }
  function PopState(stack: seq<int>, u: ()): seq<int> { if stack == [] then [] else stack[1..] }
  function PopValue(stack: seq<int>, u: ()): Option<int> { if stack == [] then None else Some(stack[0]) }

  /** Running a chain whose first action is `act` is taking that action's
      step, then running the rest from the state it produced. */
  lemma UnfoldChain<S, V>(act: S -> Step<S, V>, rest: seq<S -> Step<S, V>>, s: S)
    ensures Thread([act] + rest, s) == Thread(rest, act(s).state)
    ensures Emitted([act] + rest, s) ==
      (if act(s).value.Some? then [act(s).value.value] else []) + Emitted(rest, act(s).state)
  {
    assert ([act] + rest)[1..] == rest;
  }

  function Push(e: int): seq<int> -> Step<seq<int>, int> { Def(PushState, PushValue)(e) }
  function Pop(): seq<int> -> Step<seq<int>, int> { Def(PopState, PopValue)(()) }

  lemma PushesThread()
    ensures Thread([Push(4), Push(5), Push(6)], []) == [6, 5, 4]
    ensures Emitted([Push(4), Push(5), Push(6)], []) == []
  {
    DefSteps(PushState, PushValue, 4, []);
    DefSteps(PushState, PushValue, 5, [4]);
    DefSteps(PushState, PushValue, 6, [5, 4]);
    assert [4] + [] == [4] && [5] + [4] == [5, 4] && [6] + [5, 4] == [6, 5, 4];
    UnfoldChain(Push(6), [], [5, 4]);
    UnfoldChain(Push(5), [Push(6)], [4]);
    UnfoldChain(Push(4), [Push(5), Push(6)], []);
    assert [Push(4), Push(5), Push(6)] == [Push(4)] + [Push(5), Push(6)];
    assert [Push(5), Push(6)] == [Push(5)] + [Push(6)];
  }

  lemma PopsThread()
    ensures Thread([Pop(), Pop(), Pop()], [6, 5, 4]) == []
    ensures Emitted([Pop(), Pop(), Pop()], [6, 5, 4]) == [6, 5, 4]
  {
    DefSteps(PopState, PopValue, (), [6, 5, 4]);
    DefSteps(PopState, PopValue, (), [5, 4]);
    DefSteps(PopState, PopValue, (), [4]);
    assert [6, 5, 4][1..] == [5, 4] && [5, 4][1..] == [4] && [4][1..] == [];
    UnfoldChain(Pop(), [], [4]);
    UnfoldChain(Pop(), [Pop()], [5, 4]);
    UnfoldChain(Pop(), [Pop(), Pop()], [6, 5, 4]);
    assert [Pop(), Pop(), Pop()] == [Pop()] + [Pop(), Pop()];
    assert [Pop(), Pop()] == [Pop()] + [Pop()];
  }

  /** Pushing 4, 5, 6 then popping three times hands `k` the values 6, 5, 4
      and leaves the empty stack. */
  lemma StackScenario<R>(k: seq<int> -> seq<int> -> R)
    ensures Actions([Push(4), Push(5), Push(6), Pop(), Pop(), Pop()], k, []) == k([6, 5, 4])([])
  {
    var a, b := [Push(4), Push(5), Push(6)], [Pop(), Pop(), Pop()];
    assert [Push(4), Push(5), Push(6), Pop(), Pop(), Pop()] == a + b;
    PushesThread();
    PopsThread();
    ActionsAppend(a, b, k, []);
    assert [] + [6, 5, 4] == [6, 5, 4];
  }

  /** A chain of actions that yield nothing calls `k()` with the threaded state. */
  lemma PushOnlyScenario<R>(k: seq<int> -> seq<int> -> R)
    ensures Actions([Push(1)], k, []) == k([])([1])
  {
    var p1 := Push(1);
    DefSteps(PushState, PushValue, 1, []);
    assert [1] + [] == [1];
    UnfoldChain(p1, [], []);
    assert [p1] == [p1] + [];
  }
}
