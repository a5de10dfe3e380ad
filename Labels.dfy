/** Class labels: two-entry vectors, non-road first, as value_to_class produces them. */
module Labels {

  /** A label or a prediction row: the score of class 0 (non-road), then of class 1 (road). */
  type Label = seq<real>

  const NonRoad: Label := [1.0, 0.0]
  const Road: Label := [0.0, 1.0]

  /** Foreground fraction above which a patch is labelled road. */
  const ForegroundThreshold: real := 0.25

  /** Exactly one of the two entries is 1 and the other 0. */
  predicate IsOneHot(l: Label) {
    |l| == 2 && ((l[0] == 1.0 && l[1] == 0.0) || (l[0] == 0.0 && l[1] == 1.0))
  }

  /** numpy.sum over the values of an array, flattened. */
  function Sum(v: seq<real>): real {
    if |v| == 0 then 0.0 else Sum(v[..|v| - 1]) + v[|v| - 1]
  }

  /** value_to_class: road exactly when the summed input is strictly above the threshold;
      the result is always one-hot. */
  function ValueToClass(v: seq<real>): (cls: Label)
    ensures IsOneHot(cls)
    ensures cls[1] == 1.0 <==> Sum(v) > ForegroundThreshold
  {
    if Sum(v) > ForegroundThreshold then Road else NonRoad
  }

  /** extract_labels passes the mean of a ground-truth patch as one value: the threshold is
      strict, so a mean of exactly 0.25 is non-road and anything above it is road. */
  lemma ClassOfMean(mean: real)
    ensures ValueToClass([mean]) == if mean > 0.25 then Road else NonRoad
    ensures ValueToClass([0.25]) == NonRoad && ValueToClass([0.2500001]) == Road
  {
    assert [mean][..0] == [] && [0.25][..0] == [] && [0.2500001][..0] == [];
    assert Sum([mean]) == mean && Sum([0.25]) == 0.25 && Sum([0.2500001]) == 0.2500001;
  }
}
