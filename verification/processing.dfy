/** RR-interval conditioning: the interval classifiers, the signal-quality
    score, the plausible-range filter, the denoise pipeline and the
    duration-based truncation of one recording.

    Durations are exact reals standing in for floats. A float that may be
    NaN is a `Sample`: `None` is NaN. */
module Processing {
  import opened Options
  import opened Series

  /** Default ratio threshold of the ectopic-beat test. */
  const DefaultEctopicThreshold: real := 1.2

  /** Plausible range of one RR-interval, in milliseconds
      (2000 ms is 30 bpm, 300 ms is 200 bpm). */
  const LowRriMs: real := 300.0
  const HighRriMs: real := 2000.0

  /** Score below which a recording is judged to be of low quality. */
  const QualityThreshold: real := 0.9

  /** Interval durations are multiplied by this to go from seconds to milliseconds. */
  const MillisPerSecond: real := 1000.0

  type Sample = Option<real>

  /** The percentile routine the outlier test delegates to: given the data
      and a percentage, a value. Its interpolation rule is not modelled. */
  type Percentile = (seq<real>, real) -> real

  // ---------------------------------------------------------------------
  // Interval classifiers
  // ---------------------------------------------------------------------

  /** Ectopic-beat mask: position 0 is never flagged; position i >= 1 is
      flagged when the ratio of interval i to interval i-1 differs from 1 by
      more than `threshold`. The ratios are computed as one vector
      (later intervals over earlier ones) and `false` is put in front. */
  function DetectEctopicBeats(rr: seq<real>, threshold: real): (ectopic: seq<bool>)
    requires AllPositive(rr)
    ensures |ectopic| == if |rr| == 0 then 1 else |rr|
    ensures !ectopic[0]
    ensures forall i :: 1 <= i < |rr| ==> (ectopic[i] <==> RatioDeviates(rr[i - 1], rr[i], threshold))
  {
    var later := if |rr| == 0 then [] else rr[1..];
    var earlier := if |rr| == 0 then [] else rr[..|rr| - 1];
    assert |later| == |earlier|;
    [false] + seq(|later|, k requires 0 <= k < |later| => RatioDeviates(earlier[k], later[k], threshold))
  }

  /** `|cur / prev - 1| > threshold`: the ratio of an interval to its
      predecessor is further than `threshold` from 1. */
  predicate RatioDeviates(prev: real, cur: real, threshold: real)
    requires prev > 0.0
  {
    Abs(cur / prev - 1.0) > threshold
  }

  /** A ratio that differs from 1 by more than `threshold` is a difference
      larger than `threshold` times the earlier interval. */
  lemma RatioDeviationIsScaledDifference(prev: real, cur: real, threshold: real)
    requires prev > 0.0
    ensures RatioDeviates(prev, cur, threshold) <==> Abs(cur - prev) > threshold * prev
  {
    QuotientOfDifference(cur, prev, prev);
    QuotientOfDifference(prev, cur, prev);
    assert prev / prev == 1.0;
    var up, down := (cur - prev) / prev, (prev - cur) / prev;
    assert cur / prev - 1.0 == up;
    assert 1.0 - cur / prev == down;
    QuotientExceedsIff(cur - prev, prev, threshold);
    QuotientExceedsIff(prev - cur, prev, threshold);
  }

  /** The ratio test is a test on the successive difference, scaled by the
      earlier interval. */
  lemma EctopicMeansLargeSuccessiveDifference(rr: seq<real>, threshold: real, i: nat)
    requires AllPositive(rr)
    requires 1 <= i < |rr|
    ensures DetectEctopicBeats(rr, threshold)[i] <==> Abs(rr[i] - rr[i - 1]) > threshold * rr[i - 1]
  {
    RatioDeviationIsScaledDifference(rr[i - 1], rr[i], threshold);
  }

  /** With a threshold of at least 1 (the default is 1.2) only a lengthened
      interval can be flagged: one more than (1 + threshold) times its
      predecessor. A shortened interval is never ectopic. */
  lemma LargeThresholdFlagsOnlyLengthenedBeats(rr: seq<real>, threshold: real, i: nat)
    requires AllPositive(rr)
    requires threshold >= 1.0
    requires 1 <= i < |rr|
    ensures DetectEctopicBeats(rr, threshold)[i] <==> rr[i] > (1.0 + threshold) * rr[i - 1]
  {
    EctopicMeansLargeSuccessiveDifference(rr, threshold, i);
    var prev := rr[i - 1];
    ScalingByAtLeastOne(threshold, prev);
    assert (1.0 + threshold) * prev == prev + threshold * prev;
  }

  /** Tukey's fences: 1.5 interquartile ranges below Q1 and above Q3. */
  datatype Fences = Fences(lower: real, upper: real)

  function IqrFences(q1: real, q3: real): (f: Fences)
    ensures q1 <= q3 ==> f.lower <= q1 && q3 <= f.upper
    ensures f.upper - f.lower == 4.0 * (q3 - q1)
    ensures q1 - f.lower == f.upper - q3
  {
    var iqr := q3 - q1;
    Fences(q1 - 1.5 * iqr, q3 + 1.5 * iqr)
  }

  /** The fences of a series, from its 25th and 75th percentiles. */
  function SeriesFences(rr: seq<real>, percentile: Percentile): Fences
  {
    IqrFences(percentile(rr, 25.0), percentile(rr, 75.0))
  }

  /** Outlier mask: a value is flagged when it lies strictly outside the
      fences. A value between the two quartiles is never flagged. */
  function DetectOutliers(rr: seq<real>, percentile: Percentile): (outliers: seq<bool>)
    ensures |outliers| == |rr|
    ensures forall i :: 0 <= i < |rr| ==>
              (outliers[i] <==> rr[i] < SeriesFences(rr, percentile).lower || rr[i] > SeriesFences(rr, percentile).upper)
    ensures forall i :: 0 <= i < |rr| && percentile(rr, 25.0) <= rr[i] <= percentile(rr, 75.0) ==> !outliers[i]
  {
    var f := SeriesFences(rr, percentile);
    seq(|rr|, i requires 0 <= i < |rr| => rr[i] < f.lower || rr[i] > f.upper)
  }

  // ---------------------------------------------------------------------
  // Quality score
  // ---------------------------------------------------------------------

  /** Positions flagged by neither mask (`~ectopic & ~outliers`), as long as
      the outlier mask. */
  function ValidMask(ectopic: seq<bool>, outliers: seq<bool>): (valid: seq<bool>)
    requires |outliers| <= |ectopic|
    ensures |valid| == |outliers|
    ensures forall i :: 0 <= i < |valid| ==> (valid[i] <==> !ectopic[i] && !outliers[i])
  {
    seq(|outliers|, i requires 0 <= i < |outliers| => !ectopic[i] && !outliers[i])
  }

  /** Valid positions over one more than the number of intervals: n
      intervals separate n + 1 beats, so the score stays below 1. */
  function Score(valid: seq<bool>): (score: real)
    ensures 0.0 <= score < 1.0
  {
    var d := (|valid| + 1) as real;
    QuotientMonotone(0.0, CountTrue(valid) as real, d);
    QuotientMonotone(CountTrue(valid) as real, d, d);
    assert d / d == 1.0;
    CountTrue(valid) as real / d
  }

  /** The positions of a series that are neither ectopic (default threshold)
      nor outliers. */
  function ValidBeats(rr: seq<real>, percentile: Percentile): (valid: seq<bool>)
    requires AllPositive(rr)
    ensures |valid| == |rr|
    ensures forall i :: 0 <= i < |rr| ==>
              (valid[i] <==> !DetectEctopicBeats(rr, DefaultEctopicThreshold)[i] && !DetectOutliers(rr, percentile)[i])
  {
    // For an empty series the ectopic mask is the single `false`; numpy
    // broadcasts it against the empty outlier mask, giving an empty mask.
    var ectopic := DetectEctopicBeats(rr, DefaultEctopicThreshold);
    var outliers := DetectOutliers(rr, percentile);
    ValidMask(ectopic[..|outliers|], outliers)
  }

  /** Fraction of valid beats: the number of intervals that are neither
      ectopic nor outliers, over the number of intervals plus one. The
      caller's quality threshold only selects a log message. */
  function EvaluateSignalQuality(rr: seq<real>, percentile: Percentile): (score: real)
    requires AllPositive(rr)
    ensures 0.0 <= score < 1.0
    ensures score == |set i | 0 <= i < |rr| && !DetectEctopicBeats(rr, DefaultEctopicThreshold)[i]
                                           && !DetectOutliers(rr, percentile)[i]| as real / (|rr| + 1) as real
  {
    CountTrueIsCardinality(ValidBeats(rr, percentile));
    ValidBeatsAreUnflaggedIntervals(rr, percentile);
    Score(ValidBeats(rr, percentile))
  }

  /** The positions a quality score counts are the intervals flagged
      neither ectopic nor outlier. */
  lemma ValidBeatsAreUnflaggedIntervals(rr: seq<real>, percentile: Percentile)
    requires AllPositive(rr)
    ensures TrueIndices(ValidBeats(rr, percentile))
            == set i | 0 <= i < |rr| && !DetectEctopicBeats(rr, DefaultEctopicThreshold)[i]
                                     && !DetectOutliers(rr, percentile)[i]
  {
  }

  /** A series whose flagged positions include another's flagged positions
      scores no higher. */
  lemma MoreFlagsNeverRaiseScore(ectopic1: seq<bool>, outliers1: seq<bool>,
                                 ectopic2: seq<bool>, outliers2: seq<bool>)
    requires |outliers1| == |outliers2| <= |ectopic1| && |outliers2| <= |ectopic2|
    requires forall i :: 0 <= i < |outliers1| && (ectopic1[i] || outliers1[i]) ==> ectopic2[i] || outliers2[i]
    ensures Score(ValidMask(ectopic2, outliers2)) <= Score(ValidMask(ectopic1, outliers1))
  {
    var v1, v2 := ValidMask(ectopic1, outliers1), ValidMask(ectopic2, outliers2);
    CountTrueMonotone(v2, v1);
    QuotientMonotone(CountTrue(v2) as real, CountTrue(v1) as real, (|v1| + 1) as real);
  }

  /** Flagging one more position never raises the score, and lowers it when
      that position was valid. */
  lemma OneMoreFlagNeverRaisesScore(ectopic: seq<bool>, outliers: seq<bool>, i: nat)
    requires |outliers| <= |ectopic|
    requires i < |outliers|
    ensures Score(ValidMask(ectopic, outliers[i := true])) <= Score(ValidMask(ectopic, outliers))
    ensures !ectopic[i] && !outliers[i] ==>
              Score(ValidMask(ectopic, outliers[i := true])) < Score(ValidMask(ectopic, outliers))
  {
    var before, after := ValidMask(ectopic, outliers), ValidMask(ectopic, outliers[i := true]);
    var d := (|before| + 1) as real;
    if before[i] {
      assert after == before[i := false];
      ClearingOnePositionCountsOneLess(before, i);
      QuotientMonotone(CountTrue(after) as real, CountTrue(before) as real, d);
    } else {
      assert after == before;
    }
  }

  /** At most n valid positions over n + 1 beats stays below 0.9 while n <= 8. */
  lemma FewIntervalsScoreBelowThreshold(valid: seq<bool>)
    requires |valid| <= 8
    ensures Score(valid) < QualityThreshold
  {
    var c, d := CountTrue(valid) as real, (|valid| + 1) as real;
    QuotientMonotone(c, d - 1.0, d);
    QuotientExceedsIff(d - 1.0, d, 8.0 / 9.0);
  }

  /** Because the score divides by n + 1, a series of at most 8 intervals
      never reaches the 0.9 quality threshold, however clean it is. */
  lemma ShortSeriesNeverReachThreshold(rr: seq<real>, percentile: Percentile)
    requires AllPositive(rr)
    requires |rr| <= 8
    ensures EvaluateSignalQuality(rr, percentile) < QualityThreshold
  {
    FewIntervalsScoreBelowThreshold(ValidBeats(rr, percentile));
  }

  // ---------------------------------------------------------------------
  // Range filter and denoise
  // ---------------------------------------------------------------------

  /** A sample inside the inclusive range [low, high]. NaN fails every
      comparison, so it is never plausible. */
  predicate Plausible(x: Sample, low: real, high: real)
  {
    x.Some? && low <= x.value <= high
  }

  /** Replaces every sample outside [low, high] by NaN, keeping the length
      and the order. */
  function RemoveOutliers(rr: seq<Sample>, low: real, high: real): (cleaned: seq<Sample>)
    ensures |cleaned| == |rr|
    ensures forall i :: 0 <= i < |rr| ==> (cleaned[i].Some? <==> Plausible(rr[i], low, high))
    ensures forall i :: 0 <= i < |rr| && cleaned[i].Some? ==> cleaned[i] == rr[i]
  {
    if |rr| == 0 then []
    else
      var x := rr[|rr| - 1];
      RemoveOutliers(rr[..|rr| - 1], low, high) + [if Plausible(x, low, high) then x else None]
  }

  /** The positions whose sample the filter rejects. */
  function RejectedPositions(rr: seq<Sample>, low: real, high: real): set<int>
  {
    set i | 0 <= i < |rr| && !Plausible(rr[i], low, high)
  }

  /** The samples the filter rejects, in input order. */
  function OutliersList(rr: seq<Sample>, low: real, high: real): (rejected: seq<Sample>)
    ensures |rejected| <= |rr|
    ensures forall k :: 0 <= k < |rejected| ==> rejected[k] in rr && !Plausible(rejected[k], low, high)
    ensures |rejected| == |RejectedPositions(rr, low, high)|
  {
    if |rr| == 0 then []
    else
      var x := rr[|rr| - 1];
      RejectedPositionsOfLonger(rr, low, high);
      OutliersList(rr[..|rr| - 1], low, high) + (if Plausible(x, low, high) then [] else [x])
  }

  /** One more sample adds its position to the rejected ones exactly when
      the filter rejects it. */
  lemma RejectedPositionsOfLonger(rr: seq<Sample>, low: real, high: real)
    requires |rr| > 0
    ensures var n := |rr| - 1;
            RejectedPositions(rr, low, high)
            == RejectedPositions(rr[..n], low, high) + (if Plausible(rr[n], low, high) then {} else {n})
  {
  }

  /** A single sample is listed exactly when the filter rejects it. */
  lemma OutliersListOfOneSample(x: Sample, low: real, high: real)
    ensures OutliersList([x], low, high) == if Plausible(x, low, high) then [] else [x]
  {
  }

  /** The list of a concatenation is the concatenation of the lists: the
      rejected samples appear in input order, each as often as the input
      holds it at a rejected position. */
  lemma {:induction false} OutliersListOfConcatenation(a: seq<Sample>, b: seq<Sample>, low: real, high: real)
    ensures OutliersList(a + b, low, high) == OutliersList(a, low, high) + OutliersList(b, low, high)
  {
    if |b| == 0 {
      assert a + b == a;
    } else {
      var init := b[..|b| - 1];
      OutliersListOfConcatenation(a, init, low, high);
      assert (a + b)[..|a + b| - 1] == a + init;
    }
  }

  /** The NaN mask of a sequence of samples (`np.isnan`). */
  function IsNan(s: seq<Sample>): (m: seq<bool>)
    ensures |m| == |s|
  {
    seq(|s|, i requires 0 <= i < |s| => s[i].None?)
  }

  /** The number of NaNs after filtering is the number of rejected samples. */
  lemma {:induction false} MissingCountIsOutlierCount(rr: seq<Sample>, low: real, high: real)
    ensures CountTrue(IsNan(RemoveOutliers(rr, low, high))) == |OutliersList(rr, low, high)|
  {
    if |rr| > 0 {
      var init := rr[..|rr| - 1];
      MissingCountIsOutlierCount(init, low, high);
      var cleaned := RemoveOutliers(rr, low, high);
      assert IsNan(cleaned)[..|rr| - 1] == IsNan(RemoveOutliers(init, low, high));
    }
  }

  /** Filtering an already filtered sequence changes nothing. */
  lemma RemoveOutliersIdempotent(rr: seq<Sample>, low: real, high: real)
    ensures RemoveOutliers(RemoveOutliers(rr, low, high), low, high) == RemoveOutliers(rr, low, high)
  {
  }

  /** Seconds to milliseconds (`rr * 1000`); NaN stays NaN. */
  function ToMillis(s: seq<Sample>): (ms: seq<Sample>)
    ensures |ms| == |s|
  {
    seq(|s|, i requires 0 <= i < |s| => if s[i].Some? then Some(s[i].value * MillisPerSecond) else None)
  }

  /** Milliseconds to seconds (`rr / 1000`); NaN stays NaN. */
  function ToSeconds(ms: seq<Sample>): (s: seq<Sample>)
    ensures |s| == |ms|
  {
    seq(|ms|, i requires 0 <= i < |ms| => if ms[i].Some? then Some(ms[i].value / MillisPerSecond) else None)
  }

  /** Converting to milliseconds and back gives the input. */
  lemma SecondsAfterMillisIsIdentity(s: seq<Sample>)
    ensures ToSeconds(ToMillis(s)) == s
  {
    var back := ToSeconds(ToMillis(s));
    forall i | 0 <= i < |s|
      ensures back[i] == s[i]
    {
      if s[i].Some? {
        assert (s[i].value * MillisPerSecond) / MillisPerSecond == s[i].value;
      }
    }
  }

  /** The denoise pipeline as the code has it: scale to milliseconds, range
      filter with bounds in milliseconds, scale back. There is no
      interpolation step, so rejected samples stay NaN in the result. */
  function DenoiseRrIntervals(rr: seq<Sample>, lowMs: real, highMs: real): (denoised: seq<Sample>)
    ensures |denoised| == |rr|
    ensures forall i :: 0 <= i < |rr| ==>
              denoised[i] == if rr[i].Some? && lowMs <= rr[i].value * MillisPerSecond <= highMs then rr[i] else None
  {
    var cleaned := RemoveOutliers(ToMillis(rr), lowMs, highMs);
    assert forall i :: 0 <= i < |rr| && rr[i].Some? ==> (rr[i].value * MillisPerSecond) / MillisPerSecond == rr[i].value;
    ToSeconds(cleaned)
  }

  /** Denoising an already denoised recording changes nothing. */
  lemma DenoiseIdempotent(rr: seq<Sample>, lowMs: real, highMs: real)
    ensures DenoiseRrIntervals(DenoiseRrIntervals(rr, lowMs, highMs), lowMs, highMs)
            == DenoiseRrIntervals(rr, lowMs, highMs)
  {
  }

  /** A recording of five intervals with one 3.5 s interval: denoising with
      the 300-2000 ms range leaves NaN in its place, and the ectopic test
      flags the long interval but not the normal one that follows it. */
  lemma FiveIntervalExample()
    ensures DenoiseRrIntervals([Some(0.8), Some(0.81), Some(0.79), Some(3.5), Some(0.8)], LowRriMs, HighRriMs)
            == [Some(0.8), Some(0.81), Some(0.79), None, Some(0.8)]
    ensures DetectEctopicBeats([0.8, 0.81, 0.79, 3.5, 0.8], DefaultEctopicThreshold)
            == [false, false, false, true, false]
  {
    var rr := [0.8, 0.81, 0.79, 3.5, 0.8];
    var ectopic := DetectEctopicBeats(rr, DefaultEctopicThreshold);
    LargeThresholdFlagsOnlyLengthenedBeats(rr, DefaultEctopicThreshold, 1);
    LargeThresholdFlagsOnlyLengthenedBeats(rr, DefaultEctopicThreshold, 2);
    LargeThresholdFlagsOnlyLengthenedBeats(rr, DefaultEctopicThreshold, 3);
    LargeThresholdFlagsOnlyLengthenedBeats(rr, DefaultEctopicThreshold, 4);
  }

  // ---------------------------------------------------------------------
  // Truncation
  // ---------------------------------------------------------------------

  /** `truncated` is a prefix of `rr` whose every running sum stays within
      `targetDuration`, and it stops only at the end of `rr` or where the
      next interval would push the running sum past the target. */
  ghost predicate IsLongestFittingPrefix(rr: seq<real>, targetDuration: real, truncated: seq<real>)
  {
    && truncated <= rr
    && (forall k :: 1 <= k <= |truncated| ==> Sum(truncated[..k]) <= targetDuration)
    && (|truncated| < |rr| ==> Sum(truncated) + rr[|truncated|] > targetDuration)
  }

  /** Keeps the longest prefix whose running sum never exceeds
      `targetDuration`, stopping at the first interval that would exceed it. */
  method TruncateRrIntervals(rr: seq<real>, targetDuration: real) returns (truncated: seq<real>)
    ensures IsLongestFittingPrefix(rr, targetDuration, truncated)
  {
    var accumulated := 0.0;
    truncated := [];
    var i := 0;
    // The loop stops at the end of the input or at the first interval that
    // would push the running sum past the target.
    while i < |rr| && accumulated + rr[i] <= targetDuration
      invariant 0 <= i <= |rr|
      invariant truncated == rr[..i]
      invariant accumulated == Sum(rr[..i])
      invariant forall k :: 1 <= k <= i ==> Sum(rr[..k]) <= targetDuration
    {
      SumOfLongerPrefix(rr, i);
      truncated := truncated + [rr[i]];
      accumulated := accumulated + rr[i];
      i := i + 1;
    }
    assert forall k :: 0 <= k <= i ==> truncated[..k] == rr[..k];
  }

  /** The truncation rule leaves no choice: at most one prefix satisfies it. */
  lemma LongestFittingPrefixIsUnique(rr: seq<real>, targetDuration: real, t1: seq<real>, t2: seq<real>)
    requires IsLongestFittingPrefix(rr, targetDuration, t1)
    requires IsLongestFittingPrefix(rr, targetDuration, t2)
    ensures t1 == t2
  {
    FittingPrefixIsNoLonger(rr, targetDuration, t1, t2);
    FittingPrefixIsNoLonger(rr, targetDuration, t2, t1);
  }

  /** No prefix whose running sums all fit the target is longer than the
      one the truncation rule stops at. */
  lemma FittingPrefixIsNoLonger(rr: seq<real>, targetDuration: real, longest: seq<real>, other: seq<real>)
    requires IsLongestFittingPrefix(rr, targetDuration, longest)
    requires other <= rr
    requires forall k :: 1 <= k <= |other| ==> Sum(other[..k]) <= targetDuration
    ensures |other| <= |longest|
  {
    if |longest| < |other| {
      SumOfLongerPrefix(other, |longest|);
      ShorterPrefixIsPrefixOfLonger(rr, longest, other);
    }
  }

  /** Of two prefixes of the same sequence, the shorter begins the longer. */
  lemma ShorterPrefixIsPrefixOfLonger(rr: seq<real>, short: seq<real>, long: seq<real>)
    requires short <= rr && long <= rr
    requires |short| <= |long|
    ensures long[..|short|] == short
  {
  }

  /** When the intervals are non-negative and all of them fit within the
      target, truncation keeps the whole recording. */
  lemma FittingRecordingIsKeptWhole(rr: seq<real>, targetDuration: real, truncated: seq<real>)
    requires AllNonNegative(rr)
    requires Sum(rr) <= targetDuration
    requires IsLongestFittingPrefix(rr, targetDuration, truncated)
    ensures truncated == rr
  {
    if |truncated| < |rr| {
      var n := |truncated|;
      assert rr[..n] == truncated;
      SumOfLongerPrefix(rr, n);
      PrefixSumAtMostSum(rr, n + 1);
    }
  }
}
