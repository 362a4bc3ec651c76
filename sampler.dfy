/**
 * Weighted random choice of the next character. The random draw
 * (`rnd.NextDouble()`) is a parameter; the exception the scan throws when it
 * runs off the end of the weights is a `Fail` result.
 */
module Sampler {
  import opened Errors

  /** The mass of the first `n` weights, summed in scan order. */
  function Prefix(vy: seq<real>, n: nat): real
    requires n <= |vy|
  {
    if n == 0 then 0.0 else Prefix(vy, n - 1) + vy[n - 1]
  }

  /** The running mass once weight `j` has been scanned. */
  function Mass(vy: seq<real>, j: nat): real
    requires j < |vy|
  {
    Prefix(vy, j + 1)
  }

  /** The whole mass of the weights. */
  function Total(vy: seq<real>): real
  {
    Prefix(vy, |vy|)
  }

  /** `i` is the first index at which the running mass reaches `draw`. */
  ghost predicate IsChoice(vy: seq<real>, draw: real, i: nat)
  {
    i < |vy| && draw <= Mass(vy, i) &&
    forall j :: 0 <= j < i ==> Mass(vy, j) < draw
  }

  /** No running mass reaches `draw`: the scan runs off the end. */
  ghost predicate Exhausted(vy: seq<real>, draw: real)
  {
    forall j :: 0 <= j < |vy| ==> Mass(vy, j) < draw
  }

  ghost predicate NonNegative(vy: seq<real>)
  {
    forall i :: 0 <= i < |vy| ==> 0.0 <= vy[i]
  }

  /**
   * `WeightedChoice`: subtracts each weight from the draw until the rest of
   * the draw is at most the current weight.
   */
  method WeightedChoice(vy: seq<real>, draw: real) returns (r: Result<nat>)
    ensures r.Ok? ==> IsChoice(vy, draw, r.value)
    ensures r.Fail? <==> Exhausted(vy, draw)
    ensures r.Fail? ==> r.error == NotInDictionary
  {
    var val := draw;
    var i := 0;
    while i < |vy|
      invariant 0 <= i <= |vy|
      invariant val == draw - Prefix(vy, i)
      invariant forall j :: 0 <= j < i ==> Mass(vy, j) < draw
    {
      if val <= vy[i] {
        return Ok(i);
      }
      val := val - vy[i];
      i := i + 1;
    }
    return Fail(NotInDictionary);
  }

  /** With non-negative weights the running mass never falls. */
  lemma {:induction false} PrefixMonotone(vy: seq<real>, m: nat, n: nat)
    requires NonNegative(vy)
    requires m <= n <= |vy|
    ensures Prefix(vy, m) <= Prefix(vy, n)
  {
    if m < n {
      PrefixMonotone(vy, m, n - 1);
    }
  }

  /**
   * With non-negative weights the scan fails exactly when the draw exceeds
   * the total mass.
   */
  lemma ExhaustedIffOverTotal(vy: seq<real>, draw: real)
    requires NonNegative(vy)
    requires |vy| > 0
    ensures Exhausted(vy, draw) <==> Total(vy) < draw
  {
    assert Total(vy) == Mass(vy, |vy| - 1);
    if Total(vy) < draw {
      forall j | 0 <= j < |vy|
        ensures Mass(vy, j) < draw
      {
        PrefixMonotone(vy, j + 1, |vy|);
      }
    }
  }

  /**
   * A draw no greater than the total mass of a non-negative distribution
   * (`NextDouble` lies in [0, 1) and a softmax row sums to 1) always selects
   * an index: the exception is unreachable in exact arithmetic.
   */
  lemma {:induction false} ChoiceExists(vy: seq<real>, draw: real)
    requires NonNegative(vy)
    requires |vy| > 0
    requires draw <= Total(vy)
    ensures exists i :: IsChoice(vy, draw, i)
  {
    ExhaustedIffOverTotal(vy, draw);
    var k :| 0 <= k < |vy| && draw <= Mass(vy, k);
    // the least such k is the choice
    var i := 0;
    while i < k && Mass(vy, i) < draw
      invariant 0 <= i <= k
      invariant forall j :: 0 <= j < i ==> Mass(vy, j) < draw
    {
      i := i + 1;
    }
    assert IsChoice(vy, draw, i);
  }
}
