/** The "Basic functions" of lemonad: array concatenation and the small
    array helpers built on it (lib/lemonad.js, lines 35-90). */
module Basics {
  import opened Values

  /** A JavaScript argument as the array checks (`_.isArray`) see it: an
      array with its elements, or anything else (an `arguments` object, a
      number, `undefined`, ...). */
  datatype Coll<T> = Array(items: seq<T>) | NotArray

  /** Flattening one level: what `concat` does with array arguments. */
  function Concat<T>(parts: seq<seq<T>>): seq<T>
  {
    if parts == [] then [] else parts[0] + Concat(parts[1..])
  }

  lemma {:induction false} ConcatAppend<T>(a: seq<seq<T>>, b: seq<seq<T>>)
    ensures Concat(a + b) == Concat(a) + Concat(b)
  {
    if a == [] {
      assert a + b == b;
    } else {
      assert (a + b)[1..] == a[1..] + b;
      ConcatAppend(a[1..], b);
    }
  }

  /** `L.cat(a, b, ...)`: `a.concat(b, ...)`. With no argument at all the head
      is `undefined` and reading its `concat` raises a TypeError. */
  function Cat<T>(args: seq<seq<T>>): (r: Result<seq<T>, Thrown>)
    ensures r.Success? <==> args != []
    ensures r.Success? ==> r.value == Concat(args)
    ensures r.Success? ==> |r.value| >= |args[0]| && r.value[..|args[0]|] == args[0]
  {
    if args == [] then Failure(TypeError("concat of undefined"))
    else Success(args[0] + Concat(args[1..]))
  }

  /** `L.cons(head, tail)`: `L.cat([head], tail)`. */
  function Cons<T>(head: T, tail: seq<T>): (r: seq<T>)
    ensures |r| == |tail| + 1 && r[0] == head && r[1..] == tail
  {
    assert Concat([tail]) == tail + Concat([]);
    Cat([[head], tail]).value
  }

  /** `coll.slice(0, -1)`: everything but the last element; empty stays empty. */
  function ButLastOf<T>(s: seq<T>): (r: seq<T>)
    ensures s == [] ==> r == []
    ensures s != [] ==> r + [s[|s| - 1]] == s
  {
    if s == [] then [] else s[..|s| - 1]
  }

  /** `L.butLast(coll)`: refuses a non-array. */
  function ButLast<T>(coll: Coll<T>): (r: Result<seq<T>, Thrown>)
    ensures r.Failure? <==> coll.NotArray?
    ensures coll.Array? && coll.items == [] ==> r.Success? && r.value == []
    ensures coll.Array? && coll.items != [] ==>
      |r.value| == |coll.items| - 1 && r.value + [coll.items[|coll.items| - 1]] == coll.items
  {
    match coll
    case NotArray => Failure(Thrown("Cannot butLast a non-array"))
    case Array(s) => Success(ButLastOf(s))
  }

  /** `_.first(s)`: the first element, or `undefined`. */
  function First<T>(s: seq<T>): Option<T>
  {
    if s == [] then None else Some(s[0])
  }

  /** `_.rest(s)`: `s.slice(1)`. */
  function Rest<T>(s: seq<T>): seq<T>
  {
    if s == [] then [] else s[1..]
  }

  /** `L.second(coll)`: `_.first(_.rest(coll))`, refusing a non-array. */
  function Second<T>(coll: Coll<T>): (r: Result<Option<T>, Thrown>)
    ensures r.Failure? <==> coll.NotArray?
    ensures coll.Array? && |coll.items| >= 2 ==> r == Success(Some(coll.items[1]))
    ensures coll.Array? && |coll.items| < 2 ==> r == Success(None)
  {
    match coll
    case NotArray => Failure(Thrown("cannot take the second element of a non-array"))
    case Array(s) => Success(First(Rest(s)))
  }

  /** `L.mapcat(f, coll)`: `L.cat` applied to the mapped parts, so it inherits
      `cat`'s TypeError on an empty collection. */
  function MapCat<T, U>(f: T -> seq<U>, coll: seq<T>): (r: Result<seq<U>, Thrown>)
    ensures r.Success? <==> coll != []
    ensures r.Success? ==> r.value == f(coll[0]) + Concat(seq(|coll| - 1, i requires 0 <= i < |coll| - 1 => f(coll[i + 1])))
  {
    var parts := seq(|coll|, i requires 0 <= i < |coll| => f(coll[i]));
    assert coll != [] ==> parts[1..] == seq(|coll| - 1, i requires 0 <= i < |coll| - 1 => f(coll[i + 1]));
    Cat(parts)
  }

  /** Concatenating the pairs `[s[i], x]` puts `s[i]` at `2i` and `x` at `2i+1`. */
  lemma {:induction false} PairsLayout<T>(s: seq<T>, x: T, parts: seq<seq<T>>)
    requires |parts| == |s|
    requires forall i :: 0 <= i < |s| ==> parts[i] == [s[i], x]
    ensures |Concat(parts)| == 2 * |s|
    ensures forall i :: 0 <= i < |s| ==> Concat(parts)[2 * i] == s[i] && Concat(parts)[2 * i + 1] == x
  {
    if s != [] {
      PairsLayout(s[1..], x, parts[1..]);
      var tail := Concat(parts[1..]);
      assert Concat(parts) == [s[0], x] + tail;
      forall i | 1 <= i < |s|
        ensures Concat(parts)[2 * i] == s[i] && Concat(parts)[2 * i + 1] == x
      {
        assert Concat(parts)[2 * i] == tail[2 * (i - 1)];
        assert Concat(parts)[2 * i + 1] == tail[2 * (i - 1) + 1];
      }
    }
  }

  /** `L.interpose(inter, coll)`: `inter` between every two elements. A
      collection of at most one element comes back as it is; a non-array is
      refused. */
  function Interpose<T>(inter: T, coll: Coll<T>): (r: Result<seq<T>, Thrown>)
    ensures r.Failure? <==> coll.NotArray?
    ensures coll.Array? && |coll.items| <= 1 ==> r == Success(coll.items)
    ensures coll.Array? && |coll.items| >= 2 ==>
      var n := |coll.items|;
      && |r.value| == 2 * n - 1
      && (forall i :: 0 <= i < n ==> r.value[2 * i] == coll.items[i])
      && (forall i :: 0 <= i < n - 1 ==> r.value[2 * i + 1] == inter)
  {
    match coll
    case NotArray => Failure(Thrown("expected an array as the second arg."))
    case Array(s) =>
      if |s| == 0 then Success(s)
      else if |s| == 1 then Success(s)
      else
        var f := (e: T) => Cons(e, [inter]);
        var m := MapCat(f, s).value;
        PairsLayout(s, inter, seq(|s|, i requires 0 <= i < |s| => f(s[i])));
        assert m == Concat(seq(|s|, i requires 0 <= i < |s| => f(s[i])));
        ButLast(Array(m))
  }

  /** `L.repeat(times, elem)`: `times` copies of `elem`; a missing or negative
      count is refused. */
  function Repeat<T>(times: Option<int>, elem: T): (r: Result<seq<T>, Thrown>)
    ensures r.Failure? <==> times.None? || times.value < 0
    ensures r.Success? ==> |r.value| == times.value && forall i :: 0 <= i < |r.value| ==> r.value[i] == elem
  {
    if times.None? || times.value < 0 then Failure(Thrown("expected a positive number as the first arg"))
    else Success(seq(times.value, _ => elem))
  }
}
