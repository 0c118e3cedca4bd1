/** Sums over lists of amounts. */
module Sums {
  function Sum(xs: seq<real>): real {
    if xs == [] then 0.0 else Sum(xs[..|xs| - 1]) + xs[|xs| - 1]
  }

  function NatSum(ns: seq<nat>): nat {
    if ns == [] then 0 else NatSum(ns[..|ns| - 1]) + ns[|ns| - 1]
  }

  lemma {:induction false} SumAdds(xs: seq<real>, ys: seq<real>, zs: seq<real>)
    requires |xs| == |ys| == |zs| && forall i :: 0 <= i < |xs| ==> xs[i] == ys[i] + zs[i]
    ensures Sum(xs) == Sum(ys) + Sum(zs)
    decreases |xs|
  {
    if xs != [] {
      var n := |xs| - 1;
      SumAdds(xs[..n], ys[..n], zs[..n]);
    }
  }

  /** Multiplication under a name of its own, so that products are compared by their factors. */
  function Mul(a: real, b: real): real {
    a * b
  }

  lemma ScaledSum(a: real, b: real, f: real)
    ensures Mul(a + b, f) == Mul(a, f) + Mul(b, f)
  {}

  lemma {:induction false} SumScales(xs: seq<real>, ys: seq<real>, f: real)
    requires |xs| == |ys| && forall i :: 0 <= i < |xs| ==> ys[i] == Mul(xs[i], f)
    ensures Sum(ys) == Mul(Sum(xs), f)
    decreases |xs|
  {
    if xs != [] {
      var n := |xs| - 1;
      SumScales(xs[..n], ys[..n], f);
      ScaledSum(Sum(xs[..n]), xs[n], f);
    }
  }

  lemma {:induction false} SumMonotone(xs: seq<real>, ys: seq<real>)
    requires |xs| == |ys| && forall i :: 0 <= i < |xs| ==> xs[i] <= ys[i]
    ensures Sum(xs) <= Sum(ys)
    decreases |xs|
  {
    if xs != [] {
      var n := |xs| - 1;
      SumMonotone(xs[..n], ys[..n]);
    }
  }

  lemma {:induction false} SumNonNegative(xs: seq<real>)
    requires forall i :: 0 <= i < |xs| ==> 0.0 <= xs[i]
    ensures 0.0 <= Sum(xs) && forall i :: 0 <= i < |xs| ==> xs[i] <= Sum(xs)
    decreases |xs|
  {
    if xs != [] {
      var n := |xs| - 1;
      SumNonNegative(xs[..n]);
      forall i | 0 <= i < n ensures xs[i] <= Sum(xs[..n]) { assert xs[..n][i] == xs[i]; }
    }
  }

  /** Whole amounts of at most the due ones add up to no more than what is due. */
  lemma {:induction false} SumOfWhole(due: seq<real>, paid: seq<nat>)
    requires |due| == |paid| && forall i :: 0 <= i < |due| ==> paid[i] as real <= due[i]
    ensures NatSum(paid) as real <= Sum(due)
    decreases |due|
  {
    if due != [] {
      var n := |due| - 1;
      SumOfWhole(due[..n], paid[..n]);
    }
  }

  lemma {:induction false} SumOfWholeLoses(due: seq<real>, paid: seq<nat>)
    requires |due| == |paid| && forall i :: 0 <= i < |due| ==> due[i] < paid[i] as real + 1.0
    ensures Sum(due) <= NatSum(paid) as real + |due| as real
    ensures due != [] ==> Sum(due) < NatSum(paid) as real + |due| as real
    decreases |due|
  {
    if due != [] {
      var n := |due| - 1;
      SumOfWholeLoses(due[..n], paid[..n]);
    }
  }
}
