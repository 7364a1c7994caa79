/** The reference cell of lemonad: `L.Ref` with `L.RefProtocol`,
    `L.WatchableProtocol` and `L.CASProtocol` mixed into its prototype
    (lib/lemonad.js, lines 523-602), modelled as one class.

    The watcher map of `L.WatchableProtocol` is a single variable closed over
    once, when the module loads; every `Ref` reaches the same map through its
    prototype. `Registry` is that one shared object, and every `Ref` points to
    it. Watcher callbacks are foreign code: a notification is recorded in the
    registry's ghost `log` instead of running a callback. */
module Refs {
  import opened Values

  /** A watcher key. `watchers[key]` turns every key into a property-name
      string, so two keys denote the same watcher exactly when their strings
      are equal. */
  type Key = string

  /** One watcher call, `watcher(key, oldVal, newVal)`. */
  datatype Note<K, T> = Note(key: K, before: T, after: T)

  /** `setValue`'s error: "Attempted to set invalid value " + the value. */
  datatype Rejected<T> = Rejected(value: T)

  /** The calls made by one notification pass: one per registered key, in
      the order the keys were registered. */
  function Notes<K, T>(keys: seq<K>, before: T, after: T): (ns: seq<Note<K, T>>)
    ensures |ns| == |keys|
    ensures forall i :: 0 <= i < |keys| ==> ns[i] == Note(keys[i], before, after)
  {
    if keys == [] then [] else [Note(keys[0], before, after)] + Notes(keys[1..], before, after)
  }

  predicate Distinct<K(==)>(s: seq<K>)
  {
    forall i, j :: 0 <= i < j < |s| ==> s[i] != s[j]
  }

  /** `s` without `x`, the order of the others kept (`_.omit`). */
  function Without<K(==,!new)>(s: seq<K>, x: K): (r: seq<K>)
    ensures forall y :: y in r <==> y in s && y != x
    ensures x !in s ==> r == s
    ensures Distinct(s) ==> Distinct(r)
  {
    if s == [] then []
    else if s[0] == x then Without(s[1..], x)
    else
      var rest := Without(s[1..], x);
      assert forall y :: y in s <==> y == s[0] || y in s[1..];
      assert Distinct(s) ==> s[0] !in rest;
      [s[0]] + rest
  }

  /** Removing a key from a concatenation removes it from each part, so the
      other keys keep their order. */
  lemma {:induction false} WithoutAppend<K(!new)>(a: seq<K>, b: seq<K>, x: K)
    ensures Without(a + b, x) == Without(a, x) + Without(b, x)
  {
    if a == [] {
      assert a + b == b;
    } else {
      assert (a + b)[1..] == a[1..] + b;
      WithoutAppend(a[1..], b, x);
    }
  }

  /** A sequence without repetitions is as long as the set of its elements. */
  lemma {:induction false} DistinctCardinality<K>(s: seq<K>, keys: set<K>)
    requires Distinct(s)
    requires forall k :: k in keys <==> k in s
    ensures |keys| == |s|
  {
    if s != [] {
      var rest := s[1..];
      assert Distinct(rest) by {
        forall i, j | 0 <= i < j < |rest| ensures rest[i] != rest[j] {
          assert rest[i] == s[i + 1] && rest[j] == s[j + 1];
        }
      }
      assert s[0] !in rest;
      DistinctCardinality(rest, keys - {s[0]});
    }
  }

  /** The module-level `watchers` map of `L.WatchableProtocol`, keyed by
      property name. `order` is the order in which JavaScript enumerates its
      keys: first registration first. */
  class Registry<W, T> {
    var order: seq<Key>
    var watchers: map<Key, W>
    ghost var log: seq<Note<Key, T>>

    ghost predicate Valid()
      reads this
    {
      Distinct(order) && forall k :: k in watchers <==> k in order
    }

    constructor ()
      ensures Valid() && order == [] && watchers == map[] && log == []
    {
      order := [];
      watchers := map[];
      log := [];
    }
  }

  /** `L.Ref` (also `L.CAS`): a value, an optional validator fixed at
      construction, and the shared watcher registry. */
  class Ref<W, T(==)> {
    var value: T
    const validator: Option<T -> bool>
    const registry: Registry<W, T>

    constructor (init: T, validator: Option<T -> bool>, registry: Registry<W, T>)
      ensures value == init && this.validator == validator && this.registry == registry
    {
      value := init;
      this.validator := validator;
      this.registry := registry;
    }

    /** A candidate passes when there is no validator (`!L.existy(validate)`)
        or the validator accepts it. */
    predicate Accepts(v: T)
    {
      validator.None? || validator.value(v)
    }

    /** `notify(oldVal, newVal)`: calls every registered watcher once with
        `(key, oldVal, newVal)` and returns how many there are. */
    method Notify(before: T, after: T) returns (n: nat)
      requires registry.Valid()
      modifies registry`log
      ensures registry.log == old(registry.log) + Notes(registry.order, before, after)
      ensures n == |registry.watchers|
    {
      var i := 0;
      while i < |registry.order|
        invariant i <= |registry.order|
        invariant registry.log == old(registry.log) + Notes(registry.order[..i], before, after)
      {
        assert registry.order[..i + 1] == registry.order[..i] + [registry.order[i]];
        NotesAppend(registry.order[..i], [registry.order[i]], before, after);
        registry.log := registry.log + [Note(registry.order[i], before, after)];
        i := i + 1;
      }
      assert registry.order[..i] == registry.order;
      DistinctCardinality(registry.order, registry.watchers.Keys);
      n := |registry.order|;
    }

    /** `watch(key, fun)`: binds `key` to `fun`, replacing any earlier binding,
        and returns `key`. */
    method Watch(key: Key, fun: W) returns (k: Key)
      requires registry.Valid()
      modifies registry`order, registry`watchers
      ensures registry.Valid()
      ensures k == key
      ensures registry.watchers == old(registry.watchers)[key := fun]
      ensures registry.order == if key in old(registry.order) then old(registry.order) else old(registry.order) + [key]
    {
      if key !in registry.order {
        registry.order := registry.order + [key];
      }
      registry.watchers := registry.watchers[key := fun];
      return key;
    }

    /** `unwatch(key)`: removes the binding of `key` only, returning what it was
        bound to, or `undefined`. */
    method Unwatch(key: Key) returns (previous: Option<W>)
      requires registry.Valid()
      modifies registry`order, registry`watchers
      ensures registry.Valid()
      ensures previous == if key in old(registry.watchers) then Some(old(registry.watchers)[key]) else None
      ensures registry.watchers == old(registry.watchers) - {key}
      ensures registry.order == Without(old(registry.order), key)
    {
      previous := if key in registry.watchers then Some(registry.watchers[key]) else None;
      registry.order := Without(registry.order, key);
      registry.watchers := registry.watchers - {key};
    }

    /** `setValue(newVal)`: a rejected candidate throws and changes nothing;
        an accepted one is committed, then every watcher is notified with the
        old and the new value, and the new value is returned. */
    method SetValue(newVal: T) returns (r: Result<T, Rejected<T>>)
      requires registry.Valid()
      modifies this`value, registry`log
      ensures Accepts(newVal) ==>
        && r == Success(newVal)
        && value == newVal
        && registry.log == old(registry.log) + Notes(registry.order, old(value), newVal)
      ensures !Accepts(newVal) ==>
        && r == Failure(Rejected(newVal))
        && value == old(value)
        && registry.log == old(registry.log)
    {
      var oldVal := value;
      if validator.Some? && !validator.value(newVal) {
        return Failure(Rejected(newVal));
      }
      value := newVal;
      var _ := Notify(oldVal, newVal);
      return Success(value);
    }

    /** `swap(fun, args...)`: `setValue(fun(value, args...))`. */
    method Swap<A>(fun: (T, seq<A>) -> T, args: seq<A>) returns (r: Result<T, Rejected<T>>)
      requires registry.Valid()
      modifies this`value, registry`log
      ensures var candidate := fun(old(value), args);
        && (Accepts(candidate) ==>
              && r == Success(candidate)
              && value == candidate
              && registry.log == old(registry.log) + Notes(registry.order, old(value), candidate))
        && (!Accepts(candidate) ==>
              && r == Failure(Rejected(candidate))
              && value == old(value)
              && registry.log == old(registry.log))
    {
      r := SetValue(fun(value, args));
    }

    /** `snapshot()`: the current value (the shallow copy `_.clone` makes of
        an object value is not modelled). */
    function Snapshot(): (v: T)
      reads this
      ensures v == value
    {
      value
    }

    /** `compareAndSet(oldVal, newVal)`: only when the current value is `===`
        to `oldVal` does it `setValue(newVal)` and answer `true`; otherwise it
        answers `undefined` and changes nothing. */
    method CompareAndSet(expected: T, newVal: T) returns (r: Result<Option<bool>, Rejected<T>>)
      requires registry.Valid()
      modifies this`value, registry`log
      ensures old(value) == expected && Accepts(newVal) ==>
        && r == Success(Some(true))
        && value == newVal
        && registry.log == old(registry.log) + Notes(registry.order, old(value), newVal)
      ensures old(value) == expected && !Accepts(newVal) ==>
        && r == Failure(Rejected(newVal))
        && value == old(value)
        && registry.log == old(registry.log)
      ensures old(value) != expected ==>
        && r == Success(None)
        && value == old(value)
        && registry.log == old(registry.log)
    {
      if value == expected {
        var committed := SetValue(newVal);
        if committed.Failure? {
          return Failure(committed.error);
        }
        return Success(Some(true));
      }
      return Success(None);
    }
  }

  lemma {:induction false} NotesAppend<K, T>(a: seq<K>, b: seq<K>, before: T, after: T)
    ensures Notes(a + b, before, after) == Notes(a, before, after) + Notes(b, before, after)
  {
  }

  /** One notification pass calls each registered watcher exactly once. */
  lemma EachWatcherNotifiedOnce<K, T>(keys: seq<K>, watched: set<K>, before: T, after: T)
    requires Distinct(keys)
    requires forall k :: k in watched <==> k in keys
    ensures var ns := Notes(keys, before, after);
      && (forall k :: k in watched ==> Note(k, before, after) in ns)
      && (forall i, j :: 0 <= i < j < |ns| ==> ns[i].key != ns[j].key)
      && (forall i :: 0 <= i < |ns| ==> ns[i].key in watched && ns[i].before == before && ns[i].after == after)
  {
    var ns := Notes(keys, before, after);
    forall k | k in watched
      ensures Note(k, before, after) in ns
    {
      var i :| 0 <= i < |keys| && keys[i] == k;
      assert ns[i] == Note(k, before, after);
    }
  }

  /** The registry is shared: a watcher added through one cell is notified
      when another cell pointing to the same registry commits a value. */
  method WatchersAreShared<W, T(==)>(a: Ref<W, T>, b: Ref<W, T>, key: Key, fun: W, v: T)
    requires a.registry == b.registry && a.registry.Valid()
    requires b.validator.None?
    modifies a.registry, b`value
    ensures b.value == v
    ensures exists i :: old(|a.registry.log|) <= i < |a.registry.log| && a.registry.log[i] == Note(key, old(b.value), v)
  {
    var _ := a.Watch(key, fun);
    var before := b.value;
    var _ := b.SetValue(v);
    var notes := Notes(b.registry.order, before, v);
    var i :| 0 <= i < |b.registry.order| && b.registry.order[i] == key;
    assert a.registry.log[old(|a.registry.log|) + i] == notes[i];
  }

  /** Three committed writes produce three notification passes, in order,
      each with the value it replaced. */
  method ThreeWrites<W, T(==)>(cell: Ref<W, T>, v1: T, v2: T, v3: T)
    requires cell.registry.Valid() && cell.validator.None?
    modifies cell`value, cell.registry`log
    ensures cell.value == v3
    ensures cell.registry.log == old(cell.registry.log)
      + Notes(cell.registry.order, old(cell.value), v1)
      + Notes(cell.registry.order, v1, v2)
      + Notes(cell.registry.order, v2, v3)
  {
    var _ := cell.SetValue(v1);
    var _ := cell.SetValue(v2);
    var _ := cell.SetValue(v3);
  }
}
