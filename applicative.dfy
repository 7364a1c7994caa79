/** Predicate combinators and higher-order collection functions:
    `L.conjoin`, `L.disjoin`, `L.keep`, `L.keepIndexed`, `L.remove`,
    `L.maxKey`, `L.reductions` and `L.fnull` (lib/lemonad.js, lines 211-237,
    267-312, 363-373 and 408-422). JavaScript truthiness of a predicate's
    result is modelled as `bool`, and a callback that may answer
    `null`/`undefined` as one returning an `Option`. */
module Applicative {
  import opened Values

  /** Every predicate of `preds` holds of `e` (the inner `_.every`). */
  function AllHold<T>(preds: seq<T -> bool>, e: T): (r: bool)
    ensures r <==> forall j :: 0 <= j < |preds| ==> preds[j](e)
  {
    if preds == [] then true else preds[0](e) && AllHold(preds[1..], e)
  }

  /** Some predicate of `preds` holds of `e` (the inner `_.some`). */
  function AnyHolds<T>(preds: seq<T -> bool>, e: T): (r: bool)
    ensures r <==> exists j :: 0 <= j < |preds| && preds[j](e)
  {
    if preds == [] then false else preds[0](e) || AnyHolds(preds[1..], e)
  }

  /** `L.conjoin(preds...)(coll)`: every predicate holds of every element. */
  function Conjoin<T>(preds: seq<T -> bool>, coll: seq<T>): (r: bool)
    ensures r <==> forall i, j :: 0 <= i < |coll| && 0 <= j < |preds| ==> preds[j](coll[i])
  {
    if coll == [] then true
    else
      assert forall i :: 1 <= i < |coll| ==> coll[i] == coll[1..][i - 1];
      AllHold(preds, coll[0]) && Conjoin(preds, coll[1..])
  }

  /** `L.disjoin(preds...)(coll)`: some predicate holds of some element. */
  function Disjoin<T>(preds: seq<T -> bool>, coll: seq<T>): (r: bool)
    ensures r <==> exists i, j :: 0 <= i < |coll| && 0 <= j < |preds| && preds[j](coll[i])
  {
    if coll == [] then false
    else
      assert forall i :: 1 <= i < |coll| ==> coll[i] == coll[1..][i - 1];
      AnyHolds(preds, coll[0]) || Disjoin(preds, coll[1..])
  }

  /** The predicates of `preds`, each negated (`L.complement`). */
  function Complements<T>(preds: seq<T -> bool>): (r: seq<T -> bool>)
    ensures |r| == |preds|
  {
    seq(|preds|, j requires 0 <= j < |preds| => (x: T) => !preds[j](x))
  }

  /** De Morgan: `disjoin` is the negation of `conjoin` over the complements. */
  lemma DisjoinIsNotConjoinOfComplements<T>(preds: seq<T -> bool>, coll: seq<T>)
    ensures Disjoin(preds, coll) == !Conjoin(Complements(preds), coll)
  {
    var cs := Complements(preds);
    if Disjoin(preds, coll) {
      var i, j :| 0 <= i < |coll| && 0 <= j < |preds| && preds[j](coll[i]);
      assert !cs[j](coll[i]);
    }
  }

  /** `L.keep(pred, coll)`: the non-null results of `pred`, in order. */
  function Keep<T, U>(pred: T -> Option<U>, coll: seq<T>): (r: seq<U>)
    ensures |r| <= |coll|
    ensures forall k :: 0 <= k < |r| ==> exists i :: 0 <= i < |coll| && pred(coll[i]) == Some(r[k])
    ensures forall i :: 0 <= i < |coll| && pred(coll[i]).Some? ==> pred(coll[i]).value in r
  {
    var mapped := seq(|coll|, i requires 0 <= i < |coll| => pred(coll[i]));
    assert forall i :: 0 <= i < |coll| ==> mapped[i] == pred(coll[i]);
    Somes(mapped)
  }

  /** `keep` distributes over concatenation of the collection. */
  lemma KeepAppend<T, U>(pred: T -> Option<U>, a: seq<T>, b: seq<T>)
    ensures Keep(pred, a + b) == Keep(pred, a) + Keep(pred, b)
  {
    var ma := seq(|a|, i requires 0 <= i < |a| => pred(a[i]));
    var mb := seq(|b|, i requires 0 <= i < |b| => pred(b[i]));
    assert seq(|a + b|, i requires 0 <= i < |a + b| => pred((a + b)[i])) == ma + mb;
    SomesAppend(ma, mb);
  }

  /** `L.keepIndexed(pred, coll)`: `keep` where `pred` also sees the index. */
  function KeepIndexed<T, U>(pred: (int, T) -> Option<U>, coll: seq<T>): (r: seq<U>)
    ensures |r| <= |coll|
    ensures forall k :: 0 <= k < |r| ==> exists i :: 0 <= i < |coll| && pred(i, coll[i]) == Some(r[k])
    ensures forall i :: 0 <= i < |coll| && pred(i, coll[i]).Some? ==> pred(i, coll[i]).value in r
  {
    var mapped := seq(|coll|, i requires 0 <= i < |coll| => pred(i, coll[i]));
    assert forall i :: 0 <= i < |coll| ==> mapped[i] == pred(i, coll[i]);
    Somes(mapped)
  }

  /** `keep` is the present values of `pred` mapped over `coll`. */
  lemma KeepOfMapped<T, U>(pred: T -> Option<U>, coll: seq<T>, mapped: seq<Option<U>>)
    requires |mapped| == |coll| && forall i :: 0 <= i < |coll| ==> mapped[i] == pred(coll[i])
    ensures Keep(pred, coll) == Somes(mapped)
  {
    assert mapped == seq(|coll|, i requires 0 <= i < |coll| => pred(coll[i]));
  }

  /** `keepIndexed` is the present values of `pred` mapped over the indexed `coll`. */
  lemma KeepIndexedOfMapped<T, U>(pred: (int, T) -> Option<U>, coll: seq<T>, mapped: seq<Option<U>>)
    requires |mapped| == |coll| && forall i :: 0 <= i < |coll| ==> mapped[i] == pred(i, coll[i])
    ensures KeepIndexed(pred, coll) == Somes(mapped)
  {
    assert mapped == seq(|coll|, i requires 0 <= i < |coll| => pred(i, coll[i]));
  }

  /** `keepIndexed` is `keep` over the (index, element) pairs of `coll`, so
      with `KeepAppend` the answers come in index order. */
  lemma KeepIndexedAsKeep<T, U>(pred: (int, T) -> Option<U>, coll: seq<T>)
    ensures KeepIndexed(pred, coll) ==
      Keep((p: (int, T)) => pred(p.0, p.1), seq(|coll|, i requires 0 <= i < |coll| => (i, coll[i])))
  {
    var pairs := seq(|coll|, i requires 0 <= i < |coll| => (i, coll[i]));
    var direct := seq(|coll|, i requires 0 <= i < |coll| => pred(i, coll[i]));
    KeepIndexedOfMapped(pred, coll, direct);
    KeepOfMapped((p: (int, T)) => pred(p.0, p.1), pairs, direct);
  }

  /** Appending an element to `coll` appends `pred`'s answer for it, at index
      `|coll|`, when that answer is present. */
  lemma KeepIndexedSnoc<T, U>(pred: (int, T) -> Option<U>, coll: seq<T>, x: T)
    ensures KeepIndexed(pred, coll + [x]) ==
      KeepIndexed(pred, coll) + (if pred(|coll|, x).Some? then [pred(|coll|, x).value] else [])
  {
    var m := seq(|coll|, i requires 0 <= i < |coll| => pred(i, coll[i]));
    KeepIndexedOfMapped(pred, coll, m);
    KeepIndexedOfMapped(pred, coll + [x], m + [pred(|coll|, x)]);
    SomesAppend(m, [pred(|coll|, x)]);
    assert [pred(|coll|, x)][1..] == [];
  }

  /** Reference definition of filtering, element by element. */
  function Filter<T>(pred: T -> bool, s: seq<T>): (r: seq<T>)
    ensures |r| <= |s|
    ensures forall k :: 0 <= k < |r| ==> pred(r[k]) && r[k] in s
    ensures forall i :: 0 <= i < |s| && pred(s[i]) ==> s[i] in r
  {
    if s == [] then []
    else
      assert forall i :: 1 <= i < |s| ==> s[i] == s[1..][i - 1];
      if pred(s[0]) then [s[0]] + Filter(pred, s[1..])
      else Filter(pred, s[1..])
  }

  /** Filtering distributes over concatenation, so it keeps the order. */
  lemma {:induction false} FilterAppend<T>(pred: T -> bool, a: seq<T>, b: seq<T>)
    ensures Filter(pred, a + b) == Filter(pred, a) + Filter(pred, b)
  {
    if a == [] {
      assert a + b == b;
    } else {
      assert (a + b)[1..] == a[1..] + b;
      FilterAppend(pred, a[1..], b);
    }
  }

  /** `L.remove(pred, coll)`: `keep` with `e => complement(pred)(e) ? e : undefined`. */
  function Remove<T>(pred: T -> bool, coll: seq<T>): (r: seq<T>)
    ensures |r| <= |coll|
    ensures forall k :: 0 <= k < |r| ==> !pred(r[k]) && r[k] in coll
    ensures forall i :: 0 <= i < |coll| && !pred(coll[i]) ==> coll[i] in r
  {
    Keep((e: T) => if !pred(e) then Some(e) else None, coll)
  }

  /** `keep` with a callback that answers an element or nothing is `Filter`. */
  lemma {:induction false} KeepAsFilter<T>(g: T -> Option<T>, h: T -> bool, coll: seq<T>)
    requires forall e :: g(e) == if h(e) then Some(e) else None
    ensures Keep(g, coll) == Filter(h, coll)
  {
    if coll != [] {
      KeepAsFilter(g, h, coll[1..]);
      KeepAppend(g, [coll[0]], coll[1..]);
      assert [coll[0]] + coll[1..] == coll;
      assert Keep(g, [coll[0]]) == Somes([g(coll[0])]);
    }
  }

  /** `remove` keeps exactly the elements failing `pred`, in order. */
  lemma RemoveIsFilter<T>(pred: T -> bool, coll: seq<T>)
    ensures Remove(pred, coll) == Filter((e: T) => !pred(e), coll)
  {
    KeepAsFilter((e: T) => if !pred(e) then Some(e) else None, (e: T) => !pred(e), coll);
  }

  /** The inner step of `L.maxKey` on two arguments: the first only when its
      key is strictly greater, so ties go to the later argument. */
  function Pick<T>(key: T -> int, a: T, b: T): (r: T)
    ensures r == a || r == b
    ensures key(r) >= key(a) && key(r) >= key(b)
    ensures key(a) == key(b) ==> r == b
  {
    if key(a) > key(b) then a else b
  }

  /** Folding `Pick` over `s` from `acc` never loses the maximum, and if some
      element of `s` reaches `acc`'s key, the result is an element of `s` that
      no later element reaches. */
  lemma {:induction false} FoldPick<T>(key: T -> int, f: (T, T) -> T, acc: T, s: seq<T>)
    requires forall a, b :: f(a, b) == Pick(key, a, b)
    ensures var r := FoldLeft(f, acc, s);
      && key(r) >= key(acc)
      && (forall j :: 0 <= j < |s| ==> key(s[j]) <= key(r))
      && (r == acc || r in s)
      && ((exists j :: 0 <= j < |s| && key(s[j]) >= key(acc)) ==>
            exists i :: 0 <= i < |s| && r == s[i] && forall j :: i < j < |s| ==> key(s[j]) < key(r))
  {
    if s != [] {
      var init, last := s[..|s| - 1], s[|s| - 1];
      FoldPick(key, f, acc, init);
      var p := FoldLeft(f, acc, init);
      var r := FoldLeft(f, acc, s);
      assert r == Pick(key, p, last);
      forall j | 0 <= j < |s| ensures key(s[j]) <= key(r) {
        if j < |s| - 1 { assert s[j] == init[j]; }
      }
      assert p in init ==> p in s;
      if exists j :: 0 <= j < |s| && key(s[j]) >= key(acc) {
        if r == last {
          assert r == s[|s| - 1];
        } else {
          assert key(p) > key(last) && r == p;
          var j :| 0 <= j < |s| && key(s[j]) >= key(acc);
          if j == |s| - 1 {
            assert p != acc;
            assert p in init;
            var i :| 0 <= i < |init| && init[i] == p;
            assert key(init[i]) >= key(acc);
          } else {
            assert init[j] == s[j];
          }
          var i :| 0 <= i < |init| && p == init[i] && forall j :: i < j < |init| ==> key(init[j]) < key(p);
          assert s[i] == p;
          forall j | i < j < |s| ensures key(s[j]) < key(r) {
            if j < |s| - 1 { assert s[j] == init[j]; }
          }
        }
      }
    }
  }

  /** `L.maxKey(key, args...)`: an argument with the greatest key, the last
      one among equals; no argument at all gives `undefined`. */
  function MaxKey<T>(key: T -> int, args: seq<T>): (r: Option<T>)
    ensures r.None? <==> args == []
    ensures r.Some? ==>
      exists i :: 0 <= i < |args| && r.value == args[i]
        && (forall j :: 0 <= j < |args| ==> key(args[j]) <= key(r.value))
        && (forall j :: i < j < |args| ==> key(args[j]) < key(r.value))
  {
    var sz := |args|;
    if sz == 0 then None
    else if sz == 1 then Some(args[0])
    else if sz == 2 then Some(Pick(key, args[0], args[1]))
    else
      var f := (agg: T, e: T) => Pick(key, agg, e);
      var acc := Pick(key, args[0], args[1]);
      FoldPick(key, f, acc, args);
      assert key(args[0]) >= key(acc) || key(args[1]) >= key(acc);
      Some(FoldLeft(f, acc, args))
  }

  /** `L.reductions(fun, init, coll)`: every intermediate value of the left fold. */
  method Reductions<A, B>(fun: (A, B) -> A, init: A, coll: seq<B>) returns (r: seq<A>)
    ensures |r| == |coll|
    ensures forall k :: 0 <= k < |coll| ==> r[k] == FoldLeft(fun, init, coll[..k + 1])
  {
    r := [];
    var acc := init;
    var k := 0;
    while k < |coll|
      invariant k <= |coll| && |r| == k
      invariant acc == FoldLeft(fun, init, coll[..k])
      invariant forall i :: 0 <= i < k ==> r[i] == FoldLeft(fun, init, coll[..i + 1])
    {
      assert coll[..k + 1][..k] == coll[..k];
      acc := fun(acc, coll[k]);
      r := r + [acc];
      k := k + 1;
    }
  }

  /** The last intermediate value of `reductions` is the fold of the whole collection. */
  lemma ReductionsEndsWithFold<A, B>(fun: (A, B) -> A, init: A, coll: seq<B>, r: seq<A>)
    requires coll != []
    requires |r| == |coll|
    requires forall k :: 0 <= k < |coll| ==> r[k] == FoldLeft(fun, init, coll[..k + 1])
    ensures r[|r| - 1] == FoldLeft(fun, init, coll)
  {
    assert coll[..|coll|] == coll;
  }

  /** The argument list `L.fnull(fun, defaults...)` passes on: each argument
      that is `null`/`undefined` (or missing) and has a default is replaced by
      it; the list grows to cover every default. */
  function Filled<T>(args: seq<Option<T>>, defaults: seq<Option<T>>): (r: seq<Option<T>>)
    ensures |r| == if |args| < |defaults| then |defaults| else |args|
    ensures forall i :: 0 <= i < |args| && args[i].Some? ==> r[i] == args[i]
    ensures forall i :: 0 <= i < |args| && i >= |defaults| ==> r[i] == args[i]
    ensures forall i :: 0 <= i < |defaults| && (i >= |args| || args[i].None?) ==> r[i] == defaults[i]
  {
    seq(if |args| < |defaults| then |defaults| else |args|,
        i requires 0 <= i < (if |args| < |defaults| then |defaults| else |args|) =>
          if i < |defaults| && (i >= |args| || args[i].None?) then defaults[i] else args[i])
  }

  /** `L.fnull(fun, defaults...)(args...)`. */
  method Fnull<T, R>(fun: seq<Option<T>> -> R, defaults: seq<Option<T>>, args: seq<Option<T>>) returns (r: R)
    ensures r == fun(Filled(args, defaults))
  {
    var a := args;
    var sz := |defaults|;
    var i := 0;
    while i < sz
      invariant i <= sz
      invariant |a| == if |args| < i then i else |args|
      invariant forall j :: 0 <= j < |a| ==> a[j] == if j < i && (j >= |args| || args[j].None?) then defaults[j] else args[j]
    {
      if i >= |a| || a[i].None? {
        if i < |a| {
          a := a[i := defaults[i]];
        } else {
          a := a + [defaults[i]];
        }
      }
      i := i + 1;
    }
    assert a == Filled(args, defaults);
    r := fun(a);
  }
}
