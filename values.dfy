/** Shared value types of the lemonad model: absent values, thrown errors,
    and the two collection primitives the library leans on everywhere --
    filtering out absent values (`L.existy`) and the left fold (`_.reduce`). */
module Values {

  /** A JavaScript value that may be `null`/`undefined` (`L.existy` is `Some?`). */
  datatype Option<+T> = None | Some(value: T)

  /** The outcome of a JavaScript call: a returned value or a thrown error. */
  datatype Result<+R, +E> = Success(value: R) | Failure(error: E)

  /** What the library throws: its own string messages, or the TypeError the
      engine raises when a property of `undefined` is read or written. */
  datatype Thrown = Thrown(message: string) | TypeError(operation: string)

  /** `_.filter(xs, L.existy)`: the present values of `xs`, in order. */
  function Somes<T>(xs: seq<Option<T>>): (r: seq<T>)
    ensures |r| <= |xs|
    ensures forall i :: 0 <= i < |r| ==> Some(r[i]) in xs
    ensures forall i :: 0 <= i < |xs| && xs[i].Some? ==> xs[i].value in r
    ensures (forall i :: 0 <= i < |xs| ==> xs[i].Some?) ==> |r| == |xs|
  {
    if xs == [] then []
    else
      var rest := Somes(xs[1..]);
      assert forall i :: 1 <= i < |xs| ==> xs[i] == xs[1..][i - 1];
      match xs[0]
      case Some(v) => [v] + rest
      case None => rest
  }

  /** Filtering distributes over concatenation. */
  lemma {:induction false} SomesAppend<T>(a: seq<Option<T>>, b: seq<Option<T>>)
    ensures Somes(a + b) == Somes(a) + Somes(b)
  {
    if a == [] {
      assert a + b == b;
    } else {
      assert (a + b)[1..] == a[1..] + b;
      SomesAppend(a[1..], b);
    }
  }

  /** A list whose entries are all present filters back to its values, in order. */
  lemma {:induction false} SomesOfPresent<T>(xs: seq<T>)
    ensures Somes(seq(|xs|, i requires 0 <= i < |xs| => Some(xs[i]))) == xs
  {
    if xs != [] {
      var s := seq(|xs|, i requires 0 <= i < |xs| => Some(xs[i]));
      assert s[1..] == seq(|xs[1..]|, i requires 0 <= i < |xs[1..]| => Some(xs[1..][i]));
      SomesOfPresent(xs[1..]);
      assert xs == [xs[0]] + xs[1..];
    }
  }

  /** `_.reduce(s, f, init)`: the left fold, written by peeling the last element. */
  function FoldLeft<A, B>(f: (A, B) -> A, init: A, s: seq<B>): A
  {
    if s == [] then init else f(FoldLeft(f, init, s[..|s| - 1]), s[|s| - 1])
  }

  /** Folding over a sequence extended by one element takes one more step. */
  lemma FoldLeftSnoc<A, B>(f: (A, B) -> A, init: A, s: seq<B>, x: B)
    ensures FoldLeft(f, init, s + [x]) == f(FoldLeft(f, init, s), x)
  {
    assert (s + [x])[..|s + [x]| - 1] == s;
  }
}
