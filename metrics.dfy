/**
 * The arithmetic of `Loss` and of the learning-rate schedule, over exact
 * reals. `Math.Log` and `Math.Pow` are passed in as the functions `ln` and
 * `pow`; nothing here assumes more of them than the lemmas say.
 */
module Metrics {
  import opened Window

  /** One step of the exponential moving average kept for loss and perplexity. */
  function Smooth(average: real, sample: real): (r: real)
    ensures average <= sample ==> average <= r <= sample
    ensures sample <= average ==> sample <= r <= average
    ensures average != sample ==> r != sample
  {
    average * 0.99 + sample * 0.01
  }

  /** The moving average after one `Smooth` step per sample, in order. */
  function SmoothAll(average: real, samples: seq<real>): real
  {
    if samples == [] then average
    else Smooth(SmoothAll(average, samples[..|samples| - 1]), samples[|samples| - 1])
  }

  /** Smoothing one more sample is one more `Smooth` step on the average so far. */
  lemma SmoothAllAppend(average: real, samples: seq<real>, sample: real)
    ensures SmoothAll(average, samples + [sample]) == Smooth(SmoothAll(average, samples), sample)
  {
    assert (samples + [sample])[..|samples|] == samples;
  }

  /** The smoothed value never leaves an interval holding its start and every sample. */
  lemma {:induction false} SmoothAllBounded(average: real, samples: seq<real>, lo: real, hi: real)
    requires lo <= average <= hi
    requires forall i :: 0 <= i < |samples| ==> lo <= samples[i] <= hi
    ensures lo <= SmoothAll(average, samples) <= hi
  {
    if samples != [] {
      SmoothAllBounded(average, samples[..|samples| - 1], lo, hi);
    }
  }

  /** 0.99 raised to `k`: the weight the start still carries after `k` steps. */
  function Decay(k: nat): (r: real)
    ensures 0.0 < r <= 1.0
  {
    if k == 0 then 1.0 else 0.99 * Decay(k - 1)
  }

  /**
   * Fed the same sample `k` times, the average closes the gap to it by the
   * factor 0.99 per step.
   */
  lemma {:induction false} SmoothConstant(average: real, sample: real, k: nat)
    ensures SmoothAll(average, seq(k, _ => sample)) - sample == Decay(k) * (average - sample)
  {
    if k > 0 {
      var s := seq(k, _ => sample);
      assert s[..k - 1] == seq(k - 1, _ => sample);
      SmoothConstant(average, sample, k - 1);
      var before := SmoothAll(average, s[..k - 1]);
      assert before - sample == Decay(k - 1) * (average - sample);
      calc {
        SmoothAll(average, s) - sample;
        0.99 * (before - sample);
        0.99 * (Decay(k - 1) * (average - sample));
        Decay(k) * (average - sample);
      }
    }
  }

  /**
   * The epoch-boundary rule: 1% up while the smoothed loss is below the slow
   * trend `trend` (`loss_p`), 2% down otherwise.
   */
  function NextLearningRate(rate: real, trend: real, loss: real): (r: real)
    ensures trend - loss > 0.0 ==> r == rate * 1.01
    ensures !(trend - loss > 0.0) ==> r == rate * 0.98
    ensures rate > 0.0 ==> r > 0.0
    ensures rate > 0.0 ==> (r > rate <==> trend - loss > 0.0)
  {
    if trend - loss > 0.0 then rate + rate * 0.01 else rate - rate * 0.02
  }

  /** The slow trend `loss_p` moves a fifth of the way to the smoothed loss. */
  function NextTrend(trend: real, loss: real): (r: real)
    ensures trend <= loss ==> trend <= r <= loss
    ensures loss <= trend ==> loss <= r <= trend
    ensures r - loss == 0.8 * (trend - loss)
  {
    trend * 0.8 + loss * 0.2
  }

  /** `probs` has one row per window slot, each of length `v`. */
  ghost predicate Shaped(probs: seq<Vector>, v: nat)
  {
    |probs| == SizeBuffer && forall t :: 0 <= t < |probs| ==> |probs[t]| == v
  }

  /** `targets` is a window whose rows 1 .. size_buffer-1 are vectors of length `v`. */
  ghost predicate IsTargets(targets: seq<Row>, v: nat)
  {
    |targets| == SizeBuffer && forall t :: 1 <= t < SizeBuffer ==> targets[t].Vec? && |targets[t].v| == v
  }

  /**
   * `probs` and `targets` can be scored: shapes agree and the probability of
   * every true class is nonzero, so that its inverse exists.
   */
  ghost predicate Scorable(probs: seq<Vector>, targets: seq<Row>, v: nat)
  {
    Shaped(probs, v) && IsTargets(targets, v) &&
    forall t, i :: 1 <= t < SizeBuffer && 0 <= i < v && targets[t].v[i] == 1.0 ==> probs[t][i] != 0.0
  }

  /**
   * The sum `ls` as the scan has it on reaching index `i` of row `t`: the
   * terms `-ln(probs[t][i]) * targets[t][i]` of rows 1 .. t-1 and of the
   * first `i` indices of row `t`.
   */
  ghost function LossSoFar(probs: seq<Vector>, targets: seq<Row>, v: nat, ln: real -> real, t: nat, i: nat): real
    requires Shaped(probs, v) && IsTargets(targets, v)
    requires 1 <= t <= SizeBuffer && i <= v && (t == SizeBuffer ==> i == 0)
    decreases t, i
  {
    if i == 0 then (if t == 1 then 0.0 else LossSoFar(probs, targets, v, ln, t - 1, v))
    else LossSoFar(probs, targets, v, ln, t, i - 1) + -ln(probs[t][i - 1]) * targets[t].v[i - 1]
  }

  /**
   * The product `pp` as the scan has it on reaching index `i` of row `t`:
   * a factor `1 / probs[t][i]` wherever the target is 1.
   */
  ghost function InverseSoFar(probs: seq<Vector>, targets: seq<Row>, v: nat, t: nat, i: nat): real
    requires Scorable(probs, targets, v)
    requires 1 <= t <= SizeBuffer && i <= v && (t == SizeBuffer ==> i == 0)
    decreases t, i
  {
    if i == 0 then (if t == 1 then 1.0 else InverseSoFar(probs, targets, v, t - 1, v))
    else
      InverseSoFar(probs, targets, v, t, i - 1) *
      (if targets[t].v[i - 1] == 1.0 then 1.0 / probs[t][i - 1] else 1.0)
  }

  /** The window's cross-entropy: `ls` averaged over the size_buffer-1 scored rows. */
  ghost function CrossEntropy(probs: seq<Vector>, targets: seq<Row>, v: nat, ln: real -> real): real
    requires Shaped(probs, v) && IsTargets(targets, v)
  {
    LossSoFar(probs, targets, v, ln, SizeBuffer, 0) / (SizeBuffer - 1) as real
  }

  /** The window's perplexity: the (size_buffer-1)-th root of `pp`, by `pow`. */
  ghost function Perplexity(probs: seq<Vector>, targets: seq<Row>, v: nat, pow: (real, real) -> real): real
    requires Scorable(probs, targets, v)
  {
    pow(InverseSoFar(probs, targets, v, SizeBuffer, 0), 1.0 / (SizeBuffer - 1) as real)
  }

  /** The gradient of softmax plus cross-entropy for one row: `probs - targets`. */
  ghost function Gradient(p: Vector, q: Vector): Vector
    requires |p| == |q|
  {
    seq(|p|, i requires 0 <= i < |p| => p[i] - q[i])
  }

  /**
   * The inner loop of `Loss` over row `t`: adds the row's terms to the
   * running sum `ls` and product `pp` and builds the row's gradient.
   */
  method ScoreRow(ghost probs: seq<Vector>, ghost targets: seq<Row>, v: nat, ln: real -> real, ghost t: nat,
                  p: Vector, target: Vector, ls0: real, pp0: real)
    returns (row: Vector, ls: real, pp: real)
    requires Scorable(probs, targets, v)
    requires 1 <= t < SizeBuffer
    requires p == probs[t] && target == targets[t].v
    requires ls0 == LossSoFar(probs, targets, v, ln, t, 0)
    requires pp0 == InverseSoFar(probs, targets, v, t, 0)
    ensures row == Gradient(probs[t], targets[t].v)
    ensures ls == LossSoFar(probs, targets, v, ln, t + 1, 0)
    ensures pp == InverseSoFar(probs, targets, v, t + 1, 0)
  {
    row := p;
    ls, pp := ls0, pp0;
    for i := 0 to v
      invariant |row| == v
      invariant ls == LossSoFar(probs, targets, v, ln, t, i)
      invariant pp == InverseSoFar(probs, targets, v, t, i)
      invariant forall k :: 0 <= k < i ==> row[k] == p[k] - target[k]
      invariant forall k :: i <= k < v ==> row[k] == p[k]
    {
      ls := ls + -ln(p[i]) * target[i];
      if target[i] == 1.0 {
        pp := pp * (1.0 / p[i]);
      }
      row := row[i := row[i] - target[i]];
    }
  }

  /** The sum of a vector's entries. */
  ghost function Sum(x: Vector): real
  {
    if x == [] then 0.0 else Sum(x[..|x| - 1]) + x[|x| - 1]
  }

  ghost predicate IsOneHot(q: Vector, k: nat)
  {
    k < |q| && q[k] == 1.0 && forall i :: 0 <= i < |q| && i != k ==> q[i] == 0.0
  }

  /**
   * Against a one-hot row with its 1 at `k`, only the true class adds to the
   * loss: scanning the first `i` indices adds `-ln(probs[t][k])` if `k < i`.
   */
  lemma {:induction false} OneHotRowLoss(probs: seq<Vector>, targets: seq<Row>, v: nat, ln: real -> real, t: nat, k: nat, i: nat)
    requires Shaped(probs, v) && IsTargets(targets, v)
    requires 1 <= t < SizeBuffer && i <= v
    requires IsOneHot(targets[t].v, k)
    ensures LossSoFar(probs, targets, v, ln, t, i) ==
      LossSoFar(probs, targets, v, ln, t, 0) + (if k < i then -ln(probs[t][k]) else 0.0)
  {
    if i > 0 {
      OneHotRowLoss(probs, targets, v, ln, t, k, i - 1);
    }
  }

  /** Against a one-hot row with its 1 at `k`, the row contributes the one factor `1 / probs[t][k]`. */
  lemma {:induction false} OneHotRowInverse(probs: seq<Vector>, targets: seq<Row>, v: nat, t: nat, k: nat, i: nat)
    requires Scorable(probs, targets, v)
    requires 1 <= t < SizeBuffer && i <= v
    requires IsOneHot(targets[t].v, k)
    ensures InverseSoFar(probs, targets, v, t, i) ==
      InverseSoFar(probs, targets, v, t, 0) * (if k < i then 1.0 / probs[t][k] else 1.0)
  {
    if i > 0 {
      OneHotRowInverse(probs, targets, v, t, k, i - 1);
      var before := InverseSoFar(probs, targets, v, t, i - 1);
      if k == i - 1 {
        assert targets[t].v[i - 1] == 1.0;
        assert before == InverseSoFar(probs, targets, v, t, 0);
        assert InverseSoFar(probs, targets, v, t, i) == before * (1.0 / probs[t][k]);
      } else {
        assert targets[t].v[i - 1] == 0.0;
        assert InverseSoFar(probs, targets, v, t, i) == before;
      }
    }
  }

  /** The targets' rows 1 .. size_buffer-1 are one-hot. */
  ghost predicate OneHotTargets(targets: seq<Row>, v: nat)
  {
    IsTargets(targets, v) &&
    forall t :: 1 <= t < SizeBuffer ==> exists k: nat :: IsOneHot(targets[t].v, k)
  }

  /** Every probability lies in (0, 1]. */
  ghost predicate Probabilities(probs: seq<Vector>)
  {
    forall t, i :: 0 <= t < |probs| && 0 <= i < |probs[t]| ==> 0.0 < probs[t][i] <= 1.0
  }

  /**
   * With one-hot targets, probabilities in (0, 1] and a logarithm that is
   * not positive there, the cross-entropy is never negative.
   */
  lemma CrossEntropyNonNegative(probs: seq<Vector>, targets: seq<Row>, v: nat, ln: real -> real)
    requires Shaped(probs, v) && OneHotTargets(targets, v) && Probabilities(probs)
    requires forall x :: 0.0 < x <= 1.0 ==> ln(x) <= 0.0
    ensures CrossEntropy(probs, targets, v, ln) >= 0.0
  {
    LossSumNonNegative(probs, targets, v, ln, SizeBuffer);
  }

  lemma {:induction false} LossSumNonNegative(probs: seq<Vector>, targets: seq<Row>, v: nat, ln: real -> real, t: nat)
    requires Shaped(probs, v) && OneHotTargets(targets, v) && Probabilities(probs)
    requires forall x :: 0.0 < x <= 1.0 ==> ln(x) <= 0.0
    requires 1 <= t <= SizeBuffer
    ensures LossSoFar(probs, targets, v, ln, t, 0) >= 0.0
  {
    if t > 1 {
      LossSumNonNegative(probs, targets, v, ln, t - 1);
      var k: nat :| IsOneHot(targets[t - 1].v, k);
      OneHotRowLoss(probs, targets, v, ln, t - 1, k, v);
      assert 0.0 < probs[t - 1][k] <= 1.0;
    }
  }

  lemma {:induction false} SumOfDifference(p: Vector, q: Vector)
    requires |p| == |q|
    ensures Sum(Gradient(p, q)) == Sum(p) - Sum(q)
  {
    if p != [] {
      var n := |p|;
      assert Gradient(p, q)[..n - 1] == Gradient(p[..n - 1], q[..n - 1]);
      SumOfDifference(p[..n - 1], q[..n - 1]);
    }
  }

  lemma {:induction false} SumOfOneHot(q: Vector, k: nat)
    requires IsOneHot(q, k)
    ensures Sum(q) == 1.0
  {
    SumOfOneHotPrefix(q, k, |q|);
    assert q[..|q|] == q;
  }

  lemma {:induction false} SumOfOneHotPrefix(q: Vector, k: nat, n: nat)
    requires IsOneHot(q, k)
    requires n <= |q|
    ensures Sum(q[..n]) == if k < n then 1.0 else 0.0
  {
    if n > 0 {
      assert q[..n][..n - 1] == q[..n - 1];
      SumOfOneHotPrefix(q, k, n - 1);
    }
  }

  /**
   * Against a one-hot target at `k`, the gradient is the probability vector
   * with 1 taken off the true class: not positive there, not negative
   * elsewhere, and summing to zero when the probabilities sum to one.
   */
  lemma GradientOfOneHot(p: Vector, q: Vector, k: nat)
    requires |p| == |q| && IsOneHot(q, k)
    requires forall i :: 0 <= i < |p| ==> 0.0 <= p[i] <= 1.0
    ensures Gradient(p, q)[k] <= 0.0
    ensures forall i :: 0 <= i < |p| && i != k ==> Gradient(p, q)[i] >= 0.0
    ensures Sum(Gradient(p, q)) == Sum(p) - 1.0
  {
    SumOfDifference(p, q);
    SumOfOneHot(q, k);
  }
}
