/** `L.assoc` and `L.update` (lib/lemonad.js, lines 154-166 and 248-260):
    follow a path of keys through nested objects and write the last key of the
    path IN PLACE. JavaScript objects and arrays are `Node`s on the heap whose
    properties are a map from (string) keys to values; what the walk may reach
    is a heap `heap` closed under following properties. */
module Paths {
  import opened Values
  import opened Basics

  type Key = string

  /** A JavaScript value as the walk sees it. `null` behaves as `undefined`
      in both places it matters here (reading a property throws; it is not
      associative). Every other primitive answers `undefined` to a property
      read and silently ignores a property write (sloppy mode). */
  datatype Val = Undefined | Prim(n: int) | Obj(node: Node)

  class Node {
    var props: map<Key, Val>

    constructor (props: map<Key, Val>)
      ensures this.props == props
    {
      this.props := props;
    }
  }

  /** Every object reachable in one step from an object of `heap` is in `heap`. */
  ghost predicate Closed(heap: set<Node>)
    reads heap
  {
    forall o, k :: o in heap && k in o.props && o.props[k].Obj? ==> o.props[k].node in heap
  }

  /** `target[key]` for a value already reached. */
  function Get(target: Val, key: Key): (r: Result<Val, Thrown>)
    reads if target.Obj? then {target.node} else {}
    ensures r.Failure? <==> target.Undefined?
  {
    match target
    case Undefined => Failure(TypeError("Cannot read property of undefined"))
    case Prim(_) => Success(Undefined)
    case Obj(o) => Success(if key in o.props then o.props[key] else Undefined)
  }

  /** The value reached from `v` by reading the keys of `path` in turn. */
  ghost function Walk(v: Val, path: seq<Key>, heap: set<Node>): Result<Val, Thrown>
    requires Closed(heap) && (v.Obj? ==> v.node in heap)
    reads heap
    decreases path
  {
    if path == [] then Success(v)
    else
      match Get(v, path[0])
      case Failure(e) => Failure(e)
      case Success(next) => Walk(next, path[1..], heap)
  }

  /** `_.last(keys)`: for an empty path this is `undefined`, which as a
      property name is the string "undefined". */
  function LastKey(keys: seq<Key>): Key
  {
    if keys == [] then "undefined" else keys[|keys| - 1]
  }

  /** The walk shared by `assoc` and `update`: `target = target[key]` for each
      key of `path`, stopping with the TypeError of the first read from
      `undefined`. */
  method Resolve(obj: Val, path: seq<Key>, ghost heap: set<Node>) returns (r: Result<Val, Thrown>)
    requires Closed(heap) && (obj.Obj? ==> obj.node in heap)
    ensures r == Walk(obj, path, heap)
    ensures r.Success? && r.value.Obj? ==> r.value.node in heap
  {
    var target := obj;
    var i := 0;
    while i < |path|
      invariant i <= |path|
      invariant target.Obj? ==> target.node in heap
      invariant Walk(obj, path, heap) == Walk(target, path[i..], heap)
    {
      assert path[i..][1..] == path[i + 1..];
      var next := Get(target, path[i]);
      if next.Failure? {
        return next;
      }
      target := next.value;
      i := i + 1;
    }
    return Success(target);
  }

  /** `L.assoc(obj, keys, value)`: sets the last key of `keys` on the object
      reached through the others, mutating it, and returns `obj` itself. A
      key path that is not an array is refused by `L.butLast`. */
  method Assoc(obj: Val, keys: Coll<Key>, value: Val, ghost heap: set<Node>) returns (r: Result<Val, Thrown>)
    requires Closed(heap) && (obj.Obj? ==> obj.node in heap)
    modifies heap
    ensures !obj.Obj? ==> r == Failure(Thrown("Attempting to assoc a non-associative object.")) && unchanged(heap)
    ensures obj.Obj? && keys.NotArray? ==> r == Failure(Thrown("Cannot butLast a non-array")) && unchanged(heap)
    ensures obj.Obj? && keys.Array? ==>
      var t := old(Walk(obj, ButLastOf(keys.items), heap));
      && (t.Failure? ==> r == t && unchanged(heap))
      && (t.Success? && t.value.Undefined? ==> r.Failure? && unchanged(heap))
      && (t.Success? && t.value.Prim? ==> r == Success(obj) && unchanged(heap))
      && (t.Success? && t.value.Obj? ==>
            && r == Success(obj)
            && t.value.node.props == old(t.value.node.props)[LastKey(keys.items) := value]
            && forall o :: o in heap && o != t.value.node ==> unchanged(o))
  {
    if !obj.Obj? {
      return Failure(Thrown("Attempting to assoc a non-associative object."));
    }
    var path := ButLast(keys);
    if path.Failure? {
      return Failure(path.error);
    }
    var lastKey := LastKey(keys.items);
    var target := Resolve(obj, path.value, heap);
    if target.Failure? {
      return target;
    }
    match target.value
    case Undefined =>
      return Failure(TypeError("Cannot set property of undefined"));
    case Prim(_) =>
      return Success(obj);
    case Obj(o) =>
      o.props := o.props[lastKey := value];
      return Success(obj);
  }

  /** `L.update(obj, keys, fun)`: like `assoc`, with the new value computed
      by `fun` from the current one (`undefined` when the key is absent). */
  method Update(obj: Val, keys: Coll<Key>, fun: Val -> Val, ghost heap: set<Node>) returns (r: Result<Val, Thrown>)
    requires Closed(heap) && (obj.Obj? ==> obj.node in heap)
    modifies heap
    ensures !obj.Obj? ==> r == Failure(Thrown("Attempting to assoc a non-associative object.")) && unchanged(heap)
    ensures obj.Obj? && keys.NotArray? ==> r == Failure(Thrown("Cannot butLast a non-array")) && unchanged(heap)
    ensures obj.Obj? && keys.Array? ==>
      var t := old(Walk(obj, ButLastOf(keys.items), heap));
      && (t.Failure? ==> r == t && unchanged(heap))
      && (t.Success? && t.value.Undefined? ==> r.Failure? && unchanged(heap))
      && (t.Success? && t.value.Prim? ==> r == Success(obj) && unchanged(heap))
      && (t.Success? && t.value.Obj? ==>
            var k := LastKey(keys.items);
            var before := old(t.value.node.props);
            && r == Success(obj)
            && t.value.node.props == before[k := fun(if k in before then before[k] else Undefined)]
            && forall o :: o in heap && o != t.value.node ==> unchanged(o))
  {
    if !obj.Obj? {
      return Failure(Thrown("Attempting to assoc a non-associative object."));
    }
    var path := ButLast(keys);
    if path.Failure? {
      return Failure(path.error);
    }
    var lastKey := LastKey(keys.items);
    var target := Resolve(obj, path.value, heap);
    if target.Failure? {
      return target;
    }
    var current := Get(target.value, lastKey);
    if current.Failure? {
      return current;
    }
    var updated := fun(current.value);
    match target.value
    case Undefined =>
      assert false;
    case Prim(_) =>
      return Success(obj);
    case Obj(o) =>
      o.props := o.props[lastKey := updated];
      return Success(obj);
  }
}
