/** Sums of an integer column over a table. */
module Sums {

  function Sum<T>(xs: seq<T>, f: T -> int): int {
    if xs == [] then 0 else Sum(xs[..|xs| - 1], f) + f(xs[|xs| - 1])
  }

  lemma {:induction false} SumAppend<T>(xs: seq<T>, x: T, f: T -> int)
    ensures Sum(xs + [x], f) == Sum(xs, f) + f(x)
  {
    assert (xs + [x])[..|xs|] == xs;
  }

  /** Rows that contribute the same sum to the same. */
  lemma {:induction false} SumSame<T>(xs: seq<T>, ys: seq<T>, f: T -> int)
    requires |xs| == |ys| && forall j :: 0 <= j < |xs| ==> f(xs[j]) == f(ys[j])
    ensures Sum(xs, f) == Sum(ys, f)
  {
    if xs != [] {
      SumSame(xs[..|xs| - 1], ys[..|ys| - 1], f);
    }
  }

  /** When only row i contributes differently, the sum moves by the difference there. */
  lemma {:induction false} SumChange<T>(xs: seq<T>, ys: seq<T>, i: nat, f: T -> int)
    requires |xs| == |ys| && i < |xs| && forall j :: 0 <= j < |xs| && j != i ==> f(xs[j]) == f(ys[j])
    ensures Sum(ys, f) == Sum(xs, f) - f(xs[i]) + f(ys[i])
  {
    var n := |xs| - 1;
    if i == n {
      SumSame(xs[..n], ys[..n], f);
    } else {
      SumChange(xs[..n], ys[..n], i, f);
    }
  }

  lemma {:induction false} SumNonneg<T>(xs: seq<T>, f: T -> int)
    requires forall j :: 0 <= j < |xs| ==> f(xs[j]) >= 0
    ensures Sum(xs, f) >= 0
    ensures forall j :: 0 <= j < |xs| ==> f(xs[j]) <= Sum(xs, f)
  {
    if xs != [] {
      SumNonneg(xs[..|xs| - 1], f);
    }
  }
}
