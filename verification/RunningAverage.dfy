/** The walking-time average of migrate.c: a 64-bit integer mean that is updated in
    place and truncates at every sample. */
module RunningAverage {
  import opened Kernel
  import opened Totals

  /** GET_END_TIME: the new average after the c-th sample, in wrapping 64-bit arithmetic. */
  function NextAverage(average: int, c: int, sample: int): int
    requires c > 0
  {
    Wrap64(Wrap64(average * (c - 1)) + sample) / c
  }

  /** The average left by a whole sequence of samples, starting from zero. */
  function Average(samples: seq<int>): int {
    if samples == [] then 0
    else NextAverage(Average(samples[..|samples| - 1]), |samples|, samples[|samples| - 1])
  }

  predicate Natural(samples: seq<int>) {
    forall i :: 0 <= i < |samples| ==> 0 <= samples[i]
  }

  /** The drift never exceeds 0 + 1 + ... + (c-1). */
  function Drift(c: nat): (d: nat)
    ensures 2 * d == c * (c - 1)
  {
    if c == 0 then 0 else Drift(c - 1) + (c - 1)
  }

  /** A step equals the exact truncated mean precisely when its total fits in 64 bits. */
  lemma StepExactIff(average: int, c: int, sample: int)
    requires 0 <= average && 0 < c < U64 && 0 <= sample
    ensures NextAverage(average, c, sample) == (average * (c - 1) + sample) / c
            <==> average * (c - 1) + sample < U64
  {
    var p := average * (c - 1);
    MulNonNegative(average, c - 1);
    WrapOnce(p, sample);
    WrapThenDivide(p + sample, c);
  }

  lemma WrapTakes(x: int)
    requires 0 <= x
    ensures x < U64 ==> Wrap64(x) == x
    ensures x >= U64 ==> Wrap64(x) <= x - U64
    ensures Wrap64(x) >= 0
  {
  }

  lemma WrapOnce(p: int, sample: int)
    ensures Wrap64(Wrap64(p) + sample) == Wrap64(p + sample)
  {
  }

  lemma WrapThenDivide(exact: int, c: int)
    requires 0 < c < U64 && 0 <= exact
    ensures Wrap64(exact) / c == exact / c <==> exact < U64
  {
    if exact >= U64 {
      DivGap(Wrap64(exact), exact, c);
    }
  }

  lemma MulAtLeast(c: int, k: int)
    requires c > 0
    ensures k >= 1 ==> c * k >= c
    ensures k <= 0 ==> c * k <= 0
    ensures k <= -1 ==> c * k <= -c
  {
  }

  lemma QuotientIs(t: int, c: int, q: int)
    requires c > 0 && c * q <= t < c * q + c
    ensures t / c == q
  {
    var d := t / c;
    assert t == c * d + t % c;
    assert c * (d - q) == c * d - c * q;
    MulAtLeast(c, d - q);
  }

  lemma DivGap(x: int, y: int, c: int)
    requires c > 0 && x + c <= y
    ensures x / c < y / c
  {
    var q := x / c;
    assert x == c * q + x % c;
    assert y == c * (y / c) + y % c;
    assert c * (y / c - q) == c * (y / c) - c * q;
    MulAtLeast(c, y / c - q);
  }

  /** A step that does not wrap leaves the new average between the old one and the sample. */
  lemma StepDrift(average: int, c: int, sample: int)
    requires 0 <= average && 0 < c && 0 <= sample
    requires average * (c - 1) + sample < U64
    ensures var next := NextAverage(average, c, sample);
            && 0 <= next
            && (c > 1 ==> Min(average, sample) <= next <= Max(average, sample))
            && (c == 1 ==> next == sample)
  {
    var p := average * (c - 1);
    MulNonNegative(average, c - 1);
    var next := (p + sample) / c;
    assert NextAverage(average, c, sample) == next;
    hide NextAverage, Wrap64;
    assert p + sample == c * next + (p + sample) % c;
    MeanBetween(average, c, sample, next);
  }

  lemma MulNonNegative(a: int, b: int)
    requires 0 <= a && 0 <= b
    ensures 0 <= a * b
  {
  }

  /** Written around either extreme m, the mean's distance from m keeps its sign. */
  lemma MeanBetween(average: int, c: int, sample: int, next: int)
    requires 0 < c && c * next <= average * (c - 1) + sample < c * next + c
    ensures Min(average, sample) <= next <= Max(average, sample)
  {
    var lo, hi := Min(average, sample), Max(average, sample);
    MulNonNegative(average - lo, c - 1);
    MulNonNegative(hi - average, c - 1);
    assert (average - lo) * (c - 1) == average * (c - 1) - (c * lo - lo);
    assert (hi - average) * (c - 1) == (c * hi - hi) - average * (c - 1);
    assert c * (next - lo) == c * next - c * lo;
    assert c * (next - hi) == c * next - c * hi;
    MulAtLeast(c, next - lo);
    MulAtLeast(c, next - hi);
  }

  function Min(a: int, b: int): int { if a < b then a else b }
  function Max(a: int, b: int): int { if a < b then b else a }

  /** No update so far exceeded 64 bits. */
  ghost predicate NeverWraps(samples: seq<int>) {
    samples == [] ||
    var c := |samples|;
    NeverWraps(samples[..c - 1]) && Average(samples[..c - 1]) * (c - 1) + samples[c - 1] < U64
  }

  /** What the average misses of the samples' total. */
  function Missing(samples: seq<int>): int {
    Sum(samples) - |samples| * Average(samples)
  }

  /** One step, wrapping or not: the loss grows by what was cut off by the wrap and by
      less than c. */
  lemma StepLoses(average: int, c: int, sample: int)
    requires 0 <= average && 0 < c && 0 <= sample
    ensures var total := average * (c - 1) + sample;
            var next := NextAverage(average, c, sample);
            && 0 <= next
            && 0 <= total - c * next
            && (total < U64 ==> total - c * next <= c - 1)
            && (total >= U64 ==> total - c * next >= U64)
  {
    var p := average * (c - 1);
    MulNonNegative(average, c - 1);
    WrapOnce(p, sample);
    var w := Wrap64(p + sample);
    assert NextAverage(average, c, sample) == w / c;
    WrapTakes(p + sample);
    hide NextAverage, Wrap64;
    assert w == c * (w / c) + w % c;
    if w / c <= -1 {
      MulAtLeast(c, w / c);
    }
  }

  /** For every sequence of samples: the average never exceeds the true mean. It lags the
      total by at most (c-1)c/2 while no update wraps; once one has, at least 2^64 is
      missing for good. The bound is therefore kept exactly when no update wrapped, for
      as many samples as it is a 64-bit number itself. */
  lemma {:induction false} DriftBoundIff(samples: seq<int>)
    requires Natural(samples)
    ensures 0 <= Average(samples) && 0 <= Missing(samples)
    ensures NeverWraps(samples) ==> Missing(samples) <= Drift(|samples|)
    ensures !NeverWraps(samples) ==> Missing(samples) >= U64
    ensures Drift(|samples|) < U64 ==> (Missing(samples) <= Drift(|samples|) <==> NeverWraps(samples))
  {
    var c := |samples|;
    if c > 0 {
      var rest := samples[..c - 1];
      DriftBoundIff(rest);
      StepLoses(Average(rest), c, samples[c - 1]);
      assert Average(rest) * (c - 1) == |rest| * Average(rest);
    }
  }

  lemma Commute(a: int, b: int)
    ensures a * b == b * a
  {
  }

  /** A total that fits is enough to keep every update from wrapping. */
  lemma {:induction false} SmallTotalNeverWraps(samples: seq<int>)
    requires Natural(samples) && Sum(samples) < U64
    ensures NeverWraps(samples)
  {
    var c := |samples|;
    if c > 0 {
      var rest := samples[..c - 1];
      assert 0 <= samples[c - 1];
      SmallTotalNeverWraps(rest);
      DriftBoundIff(rest);
      hide NextAverage, Average, Drift;
      Commute(Average(rest), |rest|);
    }
  }

  /** And then the average stays between the extreme samples. */
  lemma {:induction false} AverageBounds(samples: seq<int>, lo: int, hi: int)
    requires Natural(samples) && NeverWraps(samples)
    requires forall i :: 0 <= i < |samples| ==> lo <= samples[i] <= hi
    ensures 0 <= Average(samples)
    ensures samples != [] ==> lo <= Average(samples) <= hi
  {
    var c := |samples|;
    if c > 0 {
      var rest, last := samples[..c - 1], samples[c - 1];
      assert forall i :: 0 <= i < c - 1 ==> rest[i] == samples[i];
      assert 0 <= last && lo <= last <= hi;
      AverageBounds(rest, lo, hi);
      StepDrift(Average(rest), c, last);
    }
  }

  function Staircase(a: int, c: nat): (s: seq<int>)
    ensures |s| == c && forall i :: 0 <= i < c ==> s[i] == a + i
  {
    if c == 0 then [] else Staircase(a, c - 1) + [a + c - 1]
  }

  /** The bound is reached: samples a, a+1, a+2, ... leave the average stuck at a. */
  lemma {:induction false} DriftIsTight(a: int, c: nat)
    requires 0 <= a && 0 < c && Sum(Staircase(a, c)) < U64
    ensures Average(Staircase(a, c)) == a
    ensures Missing(Staircase(a, c)) == Drift(c)
  {
    var s := Staircase(a, c);
    assert s[..c - 1] == Staircase(a, c - 1);
    assert s[c - 1] == a + c - 1;
    StaircaseSum(a, c);
    if c > 1 {
      StaircaseSum(a, c - 1);
      DriftIsTight(a, c - 1);
      assert Drift(c) >= c - 1;
      StuckStep(a, c);
    }
  }

  lemma {:induction false} StaircaseSum(a: int, c: nat)
    ensures Sum(Staircase(a, c)) == c * a + Drift(c)
  {
    if c > 0 {
      var s := Staircase(a, c);
      assert s[..c - 1] == Staircase(a, c - 1);
      assert s[c - 1] == a + c - 1;
      StaircaseSum(a, c - 1);
    }
  }

  lemma StuckStep(a: int, c: int)
    requires 0 <= a && 1 < c && c * a + (c - 1) < U64
    ensures NextAverage(a, c, a + c - 1) == a
  {
    MulNonNegative(a, c - 1);
    var p := a * (c - 1);
    assert p + (a + c - 1) == c * a + (c - 1);
    QuotientIs(p + (a + c - 1), c, a);
  }

  /** Without the 64-bit bound the average can leave the range of its samples. */
  lemma OverflowLeavesRange()
    ensures var half := U64 / 2; Average([half, half]) == 0
  {
    var half := U64 / 2;
    assert [half, half][..1] == [half];
    assert [half][..0] == [];
    assert Average([half]) == half;
  }
}
