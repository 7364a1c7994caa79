/** Cutting arrays apart: `L.splitAt`, `L.takeSkipping`, `L.takeWhile`,
    `L.dropWhile` and `L.splitWith` (lib/lemonad.js, lines 168-184, 244-246
    and 375-395). `_.take` and `_.drop` are `Array.prototype.slice(0, n)` and
    `slice(n)`, so a negative index counts from the end. */
module Slicing {

  /** Where `slice` cuts a collection of length `len` for the index `n`. */
  function SliceIndex(n: int, len: nat): (k: nat)
    ensures k <= len
    ensures 0 <= n <= len ==> k == n
    ensures n > len ==> k == len
    ensures n < 0 ==> k + (if -n <= len then -n else len) == len
  {
    if n < 0 then (if len + n < 0 then 0 else len + n)
    else if n > len then len
    else n
  }

  /** `_.take(coll, n)`. */
  function Take<T>(coll: seq<T>, n: int): seq<T>
  {
    coll[..SliceIndex(n, |coll|)]
  }

  /** `_.drop(coll, n)`. */
  function Drop<T>(coll: seq<T>, n: int): seq<T>
  {
    coll[SliceIndex(n, |coll|)..]
  }

  /** `L.splitAt(index, coll)`: the two parts always join back to `coll`; an
      index inside the collection is the length of the first part. */
  function SplitAt<T>(index: int, coll: seq<T>): (r: (seq<T>, seq<T>))
    ensures r.0 + r.1 == coll
    ensures 0 <= index <= |coll| ==> |r.0| == index
    ensures index > |coll| ==> r.1 == []
    ensures index < 0 ==> |r.1| == if -index <= |coll| then -index else |coll|
  {
    (Take(coll, index), Drop(coll, index))
  }

  /** `L.takeSkipping(n, coll)`: every `n`-th element, starting with the
      first. The loop only ends when `n > 0` or the collection is empty. */
  method TakeSkipping<T>(n: int, coll: seq<T>) returns (r: seq<T>)
    requires n > 0 || coll == []
    ensures coll == [] ==> r == []
    ensures n > 0 ==> |r| * n >= |coll| && (|r| - 1) * n < |coll|
    ensures forall j :: 0 <= j < |r| ==> j * n < |coll| && r[j] == coll[j * n]
  {
    r := [];
    var sz := |coll|;
    var index := 0;
    while index < sz
      invariant 0 <= index
      invariant index == |r| * n
      invariant r != [] ==> (|r| - 1) * n < sz
      invariant forall j :: 0 <= j < |r| ==> j * n < sz && r[j] == coll[j * n]
      decreases sz - index
    {
      r := r + [coll[index]];
      index := index + n;
    }
  }

  /** The index at which the loop of `takeWhile`/`dropWhile` stops: the length
      of the longest prefix whose elements all satisfy `pred`. */
  function Span<T>(pred: T -> bool, s: seq<T>): (k: nat)
    ensures k <= |s|
    ensures forall i :: 0 <= i < k ==> pred(s[i])
    ensures k < |s| ==> !pred(s[k])
  {
    if s == [] || !pred(s[0]) then 0 else 1 + Span(pred, s[1..])
  }

  /** `L.takeWhile(pred, coll)`. */
  method TakeWhile<T>(pred: T -> bool, coll: seq<T>) returns (r: seq<T>)
    ensures r == coll[..Span(pred, coll)]
  {
    var sz := |coll|;
    var index := 0;
    while index < sz
      invariant index <= sz
      invariant forall i :: 0 <= i < index ==> pred(coll[i])
    {
      if !pred(coll[index]) {
        break;
      }
      index := index + 1;
    }
    r := coll[..index];
  }

  /** `L.dropWhile(pred, coll)`. */
  method DropWhile<T>(pred: T -> bool, coll: seq<T>) returns (r: seq<T>)
    ensures r == coll[Span(pred, coll)..]
  {
    var sz := |coll|;
    var index := 0;
    while index < sz
      invariant index <= sz
      invariant forall i :: 0 <= i < index ==> pred(coll[i])
    {
      if !pred(coll[index]) {
        break;
      }
      index := index + 1;
    }
    r := coll[index..];
  }

  /** `L.splitWith(pred, coll)`: the longest prefix satisfying `pred` and the
      rest, which is empty or starts with an element failing `pred`. */
  method SplitWith<T>(pred: T -> bool, coll: seq<T>) returns (taken: seq<T>, dropped: seq<T>)
    ensures taken + dropped == coll
    ensures forall i :: 0 <= i < |taken| ==> pred(taken[i])
    ensures dropped == [] || !pred(dropped[0])
  {
    taken := TakeWhile(pred, coll);
    dropped := DropWhile(pred, coll);
    assert taken + dropped == coll[..Span(pred, coll)] + coll[Span(pred, coll)..];
  }
}
