/** Sums of integer sequences, shared by the models that account for samples. */
module Totals {

  function Sum(s: seq<int>): int {
    if s == [] then 0 else Sum(s[..|s| - 1]) + s[|s| - 1]
  }

  lemma SumSnoc(s: seq<int>, x: int)
    ensures Sum(s + [x]) == Sum(s) + x
  {
    assert (s + [x])[..|s|] == s;
  }

  lemma {:induction false} SumScaled(s: seq<int>, t: seq<int>, k: int)
    requires |s| == |t| && forall i :: 0 <= i < |s| ==> t[i] == k * s[i]
    ensures Sum(t) == k * Sum(s)
  {
    if s != [] {
      var n := |s| - 1;
      SumScaled(s[..n], t[..n], k);
      assert k * (Sum(s[..n]) + s[n]) == k * Sum(s[..n]) + k * s[n];
    }
  }
}
