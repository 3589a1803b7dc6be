/** Sums over sequences: the ranking measures of the protocols add one weight per process. */
module Sums {

  function Sum(xs: seq<int>): int {
    if xs == [] then 0 else Sum(xs[..|xs| - 1]) + xs[|xs| - 1]
  }

  lemma {:induction false} SumUpdate(xs: seq<int>, i: nat, v: int)
    requires i < |xs|
    ensures Sum(xs[i := v]) == Sum(xs) - xs[i] + v
  {
    var last := |xs| - 1;
    if i == last {
      assert xs[i := v][..last] == xs[..last];
    } else {
      assert xs[i := v][..last] == xs[..last][i := v];
      SumUpdate(xs[..last], i, v);
    }
  }

  lemma {:induction false} SumLe(xs: seq<int>, ys: seq<int>)
    requires |xs| == |ys|
    requires forall i :: 0 <= i < |xs| ==> xs[i] <= ys[i]
    ensures Sum(xs) <= Sum(ys)
  {
    if xs != [] {
      SumLe(xs[..|xs| - 1], ys[..|ys| - 1]);
    }
  }

  lemma {:induction false} SumConstant(xs: seq<int>, v: int)
    requires forall i :: 0 <= i < |xs| ==> xs[i] == v
    ensures Sum(xs) == |xs| * v
  {
    if xs != [] {
      SumConstant(xs[..|xs| - 1], v);
    }
  }

  lemma SumNonNegative(xs: seq<int>)
    requires forall i :: 0 <= i < |xs| ==> 0 <= xs[i]
    ensures 0 <= Sum(xs)
  {
    var zeros := seq(|xs|, _ => 0);
    SumConstant(zeros, 0);
    SumLe(zeros, xs);
  }

  lemma {:induction false} SumPlusOne(xs: seq<int>)
    ensures Sum(seq(|xs|, i requires 0 <= i < |xs| => xs[i] + 1)) == Sum(xs) + |xs|
  {
    if xs != [] {
      var last := |xs| - 1;
      SumPlusOne(xs[..last]);
      var ys := seq(|xs|, i requires 0 <= i < |xs| => xs[i] + 1);
      assert ys[..last] == seq(last, i requires 0 <= i < last => xs[..last][i] + 1);
    }
  }
}
