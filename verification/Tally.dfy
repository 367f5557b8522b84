/**
 Counting how often each place of a buffer is written.
 */
module Tally {
  function Sum(counts: seq<int>): int {
    if counts == [] then 0 else Sum(counts[..|counts| - 1]) + counts[|counts| - 1]
  }

  function Bumped(counts: seq<int>, d: nat): (r: seq<int>)
    requires d < |counts|
    ensures |r| == |counts|
  {
    counts[d := counts[d] + 1]
  }

  lemma {:induction false} SumOfBumped(counts: seq<int>, d: nat)
    requires d < |counts|
    ensures Sum(Bumped(counts, d)) == Sum(counts) + 1
    decreases |counts|
  {
    var n, r := |counts| - 1, Bumped(counts, d);
    if d < n {
      assert r[..n] == Bumped(counts[..n], d);
      SumOfBumped(counts[..n], d);
    } else {
      assert r[..n] == counts[..n];
    }
  }

  lemma {:induction false} SumOfEqual(counts: seq<int>, k: nat)
    requires k <= 1 && forall d :: 0 <= d < |counts| ==> counts[d] == k
    ensures Sum(counts) == k * |counts|
    decreases |counts|
  {
    if counts != [] {
      SumOfEqual(counts[..|counts| - 1], k);
    }
  }

  /** A run of places written at least once each accounts for as many writes as it is long. */
  lemma {:induction false} SumAtLeast(counts: seq<int>, from: nat, n: nat)
    requires from + n <= |counts|
    requires forall d :: 0 <= d < |counts| ==> counts[d] >= 0
    requires forall d :: from <= d < from + n ==> counts[d] >= 1
    ensures Sum(counts) >= n
    decreases |counts|
  {
    if counts != [] {
      var last := |counts| - 1;
      if from + n == |counts| && n > 0 {
        SumAtLeast(counts[..last], from, n - 1);
      } else if n == 0 {
        SumAtLeast(counts[..last], 0, 0);
      } else {
        SumAtLeast(counts[..last], from, n);
      }
    }
  }
}
