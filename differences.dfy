/** The pieces both versions of `calculate_difference` share: `abs` and the
    rule for the average shortest path, which is a number only for a
    connected graph and otherwise the "not connected" sentinel string. */
module Differences {

  /** `abs(x)` of a Python int. */
  function IntAbs(x: int): (r: nat)
    ensures r == x || r == -x
  {
    if x < 0 then -x else x
  }

  /** `abs(x)` of a Python float (modelled as an exact real). */
  function RealAbs(x: real): (r: real)
    ensures r >= 0.0 && (r == x || r == -x)
  {
    if x < 0.0 then -x else x
  }

  /** `get_model_properties`' third component: the average shortest path
      length, or the sentinel for a graph that is not connected. */
  datatype AvgPath = Connected(avg: real) | NotConnected

  /** `path_diff`: 0 unless both sides carry a number, then the distance
      between them. */
  function PathDiff(real_: AvgPath, model: AvgPath): (d: real)
    ensures d >= 0.0
    ensures real_.NotConnected? || model.NotConnected? ==> d == 0.0
    ensures real_.Connected? && model.Connected? ==> d == real_.avg - model.avg || d == model.avg - real_.avg
  {
    if real_.Connected? && model.Connected? then RealAbs(real_.avg - model.avg) else 0.0
  }

  /** Swapping the two sides leaves `path_diff` unchanged. */
  lemma PathDiffSymmetric(a: AvgPath, b: AvgPath)
    ensures PathDiff(a, b) == PathDiff(b, a)
  {
  }

  /** `path_diff` is 0 exactly when a side is not connected or both have the
      same average. */
  lemma PathDiffZeroIff(a: AvgPath, b: AvgPath)
    ensures PathDiff(a, b) == 0.0 <==> a.NotConnected? || b.NotConnected? || a.avg == b.avg
  {
  }

  /** `abs(a - b)` is symmetric and 0 exactly for equal values. */
  lemma RealAbsDiff(a: real, b: real)
    ensures RealAbs(a - b) == RealAbs(b - a)
    ensures RealAbs(a - b) == 0.0 <==> a == b
  {
  }

  lemma IntAbsDiff(a: int, b: int)
    ensures IntAbs(a - b) == IntAbs(b - a)
    ensures IntAbs(a - b) == 0 <==> a == b
  {
  }
}
