/** The monotonicity checks `L.increasing`, `L.decreasing`,
    `L.increasingOrEq` and `L.decreasingOrEq` (lib/lemonad.js, lines 92-146).
    The four source functions share one shape and differ only in the
    comparison; `Cmp` names the comparison each one requires of every
    adjacent pair. */
module Monotone {
  import opened Values
  import opened Basics

  datatype Cmp = Lt | Gt | Le | Ge

  predicate Holds(cmp: Cmp, a: int, b: int)
  {
    match cmp
    case Lt => a < b
    case Gt => a > b
    case Le => a <= b
    case Ge => a >= b
  }

  /** Every adjacent pair of `s` is related by `cmp`. */
  predicate Chain(cmp: Cmp, s: seq<int>)
  {
    forall i :: 0 < i < |s| ==> Holds(cmp, s[i - 1], s[i])
  }

  /** The four comparisons are transitive, so a chain orders every pair,
      not only the adjacent ones. */
  lemma {:induction false} ChainOrdersAllPairs(cmp: Cmp, s: seq<int>)
    requires Chain(cmp, s)
    ensures forall i, j :: 0 <= i < j < |s| ==> Holds(cmp, s[i], s[j])
  {
    if |s| > 1 {
      var init := s[..|s| - 1];
      assert Chain(cmp, init) by {
        forall i | 0 < i < |init| ensures Holds(cmp, init[i - 1], init[i]) {
          assert init[i - 1] == s[i - 1] && init[i] == s[i];
        }
      }
      ChainOrdersAllPairs(cmp, init);
      forall i, j | 0 <= i < j < |s| ensures Holds(cmp, s[i], s[j]) {
        if j < |s| - 1 {
          assert s[i] == init[i] && s[j] == init[j];
        } else if i < j - 1 {
          assert Holds(cmp, init[i], init[j - 1]);
          assert Holds(cmp, s[j - 1], s[j]);
        }
      }
    }
  }

  /** The loop shared by the four checks, with the count 1 and count 2
      shortcuts of the source and the count 2 case answered as intended. */
  method Monotone(cmp: Cmp, args: seq<int>) returns (r: bool)
    ensures r <==> Chain(cmp, args)
  {
    var count := |args|;
    if count == 1 { return true; }
    if count == 2 { return Holds(cmp, args[0], args[1]); }
    var i := 1;
    while i < count
      invariant 1 <= i <= count || count == 0
      invariant forall j :: 0 < j < i && j < count ==> Holds(cmp, args[j - 1], args[j])
    {
      if !Holds(cmp, args[i - 1], args[i]) {
        return false;
      }
      i := i + 1;
    }
    return true;
  }

  /** The source as written: with exactly two arguments it calls
      `L.second(arguments)`, and `arguments` is not an array, so `second`
      throws instead of comparing. */
  method MonotoneAsWritten(cmp: Cmp, args: seq<int>) returns (r: Result<bool, Thrown>)
    ensures |args| == 2 ==> r == Failure(Thrown("cannot take the second element of a non-array"))
    ensures |args| != 2 ==> r == Success(Chain(cmp, args))
  {
    if |args| == 2 {
      var second := Second<int>(NotArray);
      return Failure(second.error);
    }
    var b := Monotone(cmp, args);
    return Success(b);
  }

  method Increasing(args: seq<int>) returns (r: bool)
    ensures r <==> forall i :: 0 < i < |args| ==> args[i - 1] < args[i]
  {
    r := Monotone(Lt, args);
  }

  method Decreasing(args: seq<int>) returns (r: bool)
    ensures r <==> forall i :: 0 < i < |args| ==> args[i - 1] > args[i]
  {
    r := Monotone(Gt, args);
  }

  method IncreasingOrEq(args: seq<int>) returns (r: bool)
    ensures r <==> forall i :: 0 < i < |args| ==> args[i - 1] <= args[i]
  {
    r := Monotone(Le, args);
  }

  method DecreasingOrEq(args: seq<int>) returns (r: bool)
    ensures r <==> forall i :: 0 < i < |args| ==> args[i - 1] >= args[i]
  {
    r := Monotone(Ge, args);
  }
}
