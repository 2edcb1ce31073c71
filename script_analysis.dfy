/** `calculate_difference` of scripts/utils_for_analysis.py, which compares
    the diameter of the largest component instead of the degree histogram. */
module ScriptAnalysis {
  import opened Differences

  /** What this version of `get_model_properties` returns: the diameter, the
      average clustering coefficient and the average shortest path. */
  datatype ComponentProps = ComponentProps(diameter: int, clustering: real, avgPath: AvgPath)

  /** `calculate_difference(real_props, model_props)`. */
  function CalculateDifference(real_: ComponentProps, model: ComponentProps): (r: (nat, real, real))
    ensures r.0 == real_.diameter - model.diameter || r.0 == model.diameter - real_.diameter
    ensures r.1 >= 0.0 && (r.1 == real_.clustering - model.clustering || r.1 == model.clustering - real_.clustering)
    ensures r.2 >= 0.0
    ensures real_.avgPath.NotConnected? || model.avgPath.NotConnected? ==> r.2 == 0.0
    ensures real_.avgPath.Connected? && model.avgPath.Connected? ==>
              r.2 == real_.avgPath.avg - model.avgPath.avg || r.2 == model.avgPath.avg - real_.avgPath.avg
  {
    (IntAbs(real_.diameter - model.diameter),
     RealAbs(real_.clustering - model.clustering),
     PathDiff(real_.avgPath, model.avgPath))
  }

  /** Swapping the real graph and the model leaves the result unchanged. */
  lemma CalculateDifferenceSymmetric(a: ComponentProps, b: ComponentProps)
    ensures CalculateDifference(a, b) == CalculateDifference(b, a)
  {
    IntAbsDiff(a.diameter, b.diameter);
    RealAbsDiff(a.clustering, b.clustering);
    PathDiffSymmetric(a.avgPath, b.avgPath);
  }

  /** A graph compared with itself gives (0, 0, 0), connected or not. */
  lemma CalculateDifferenceSelf(a: ComponentProps)
    ensures CalculateDifference(a, a) == (0, 0.0, 0.0)
  {
  }

  /** All three differences are 0 exactly when the diameters and the
      clustering agree and the paths agree or one side is not connected. */
  lemma CalculateDifferenceZeroIff(a: ComponentProps, b: ComponentProps)
    ensures CalculateDifference(a, b) == (0, 0.0, 0.0) <==>
              a.diameter == b.diameter && a.clustering == b.clustering &&
              (a.avgPath.NotConnected? || b.avgPath.NotConnected? || a.avgPath.avg == b.avgPath.avg)
  {
    PathDiffZeroIff(a.avgPath, b.avgPath);
  }
}
