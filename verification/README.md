# RR-interval conditioning and directory statistics, modelled in Dafny

This project models the signal-conditioning core of an HRV (heart-rate
variability) study tool. The tool reads recordings of RR-intervals, the
times between successive heartbeats in seconds. The modelled parts are:

- two interval classifiers:
  - the ectopic-beat test, a ratio of each interval to its predecessor;
  - the outlier test, Tukey's fences around the interquartile range;
- the signal-quality score built from those two classifiers;
- the plausible-range filter, which turns out-of-range intervals into NaN;
- the denoise pipeline: scale to milliseconds, range filter, scale back;
- the truncation of a recording to a target duration by a running sum;
- the pure aggregation of per-directory statistics: file count, shortest,
  longest and mean duration, the files that attain the extremes, and the
  counts below and above the quality threshold.

Floats are exact `real`s. A float that may be NaN is `Option<real>`, where
`None` is NaN. Boolean masks are `seq<bool>`, and `np.sum` over a mask is
`Series.CountTrue`.

Files:

- `options.dfy`: the `Option` datatype.
- `series.dfy` (module `Series`): sums, mask counts, absolute value, and
  small lemmas about real division.
- `processing.dfy` (module `Processing`): the code of `src/processing.py`.
- `statistics_dir.dfy` (module `DirectoryStatistics`): the aggregation in
  `src/statistics_dir.py`.

The configuration constants of `src/config.py` used here appear as Dafny
constants or as parameters:

- the 300 ms and 2000 ms range bounds;
- the 0.9 quality threshold.

The 1.2 ratio threshold is not a configuration constant. It is the default
argument of `detect_ectopic_beats` (src/processing.py:31).

Some facts about the source that shape the model:

- The quality score divides by the number of intervals plus one
  (src/processing.py:62-64).
- The quality score counts the intervals that neither the ectopic test nor
  the interquartile-range outlier test flags (src/processing.py:58-59, 63).
  The plausible-range filter plays no part in it.
- The denoise pipeline only scales, filters and scales back
  (src/processing.py:149-153). It has no interpolation step and no ectopic
  filter, so rejected samples stay NaN in its output.
- `truncate_rr_intervals` takes the target duration as an argument
  (src/processing.py:158). No code in the modelled files computes a common
  target for a group of recordings.

## Model

| member | source | states |
|---|---|---|
| Processing.DetectEctopicBeats | src/processing.py:31-39 | The mask has one entry per interval, and a single entry for an empty input. Position 0 is never flagged. Position i >= 1 is flagged exactly when the ratio of interval i to interval i-1 differs from 1 by strictly more than the threshold. |
| Processing.RatioDeviationIsScaledDifference | src/processing.py:33-35 | For a positive earlier interval, the ratio of two intervals differs from 1 by more than the threshold iff their absolute difference exceeds the threshold times the earlier interval. |
| Processing.EctopicMeansLargeSuccessiveDifference | src/processing.py:33-35 | The ratio test is equivalent to a test on the successive difference: position i is flagged iff the absolute difference between intervals i and i-1 exceeds the threshold times interval i-1. |
| Processing.LargeThresholdFlagsOnlyLengthenedBeats | src/processing.py:31-36 | With a threshold of at least 1, such as the default 1.2, only an interval longer than (1 + threshold) times its predecessor is flagged. A shortened interval is never flagged. |
| Processing.IqrFences | src/processing.py:45-49 | When Q1 <= Q3, the fences enclose the interquartile range: lower <= Q1 and Q3 <= upper. The fences are four interquartile ranges apart, and they lie as far below Q1 as above Q3. Together these fix 1.5 interquartile ranges on each side. |
| Processing.DetectOutliers | src/processing.py:43-51 | The mask has one entry per interval. A value is flagged iff it is strictly outside the fences. A value between the 25th and 75th percentiles is never flagged. |
| Processing.Score | src/processing.py:62-64 | The valid-beat fraction lies in [0, 1). It can never reach 1, because the denominator is the number of intervals plus one. |
| Processing.EvaluateSignalQuality | src/processing.py:55-82 | The score is the number of intervals that are neither ectopic (ratio threshold 1.2) nor outliers, divided by the number of intervals plus one. It lies in [0, 1). |
| Processing.MoreFlagsNeverRaiseScore | src/processing.py:63-64 | If every position flagged in one pair of masks is also flagged in another, the second pair scores no higher. |
| Processing.OneMoreFlagNeverRaisesScore | src/processing.py:63-64 | Flagging one more position never raises the score. It strictly lowers the score when that position was valid. |
| Processing.ShortSeriesNeverReachThreshold | src/processing.py:62-64 | A series of at most 8 intervals always scores below the 0.9 quality threshold, however clean it is. |
| Processing.RemoveOutliers | src/processing.py:121-123 | The length and order are kept. A sample survives iff it is present and lies in the inclusive range [low, high], and then it is unchanged. Every other sample becomes NaN. |
| Processing.OutliersList | src/processing.py:125-130 | Every entry of the list is a sample of the input that lies outside the range or is NaN. The list holds exactly as many entries as the input has rejected positions, so it is no longer than the input. |
| Processing.OutliersListOfOneSample | src/processing.py:126-130 | A single sample is listed exactly when it is NaN or outside the inclusive range. |
| Processing.OutliersListOfConcatenation | src/processing.py:125-130 | The list for a concatenation is the list for the first part followed by the list for the second. With the one-sample case, this fixes the list as exactly the rejected samples, in input order, each as often as it occurs. |
| Processing.MissingCountIsOutlierCount | src/processing.py:125-132 | The number of NaNs after filtering equals the length of the list of rejected samples. |
| Processing.RemoveOutliersIdempotent | src/processing.py:121-123 | Filtering an already filtered sequence changes nothing. NaN stays NaN. |
| Processing.SecondsAfterMillisIsIdentity | src/processing.py:149-153 | Converting seconds to milliseconds and back returns the input. |
| Processing.DenoiseRrIntervals | src/processing.py:146-155 | Each sample is kept unchanged iff its value in milliseconds lies in [low, high]. Otherwise it is NaN. The length is kept and nothing is interpolated. |
| Processing.DenoiseIdempotent | src/processing.py:146-155 | Denoising a denoised recording changes nothing. |
| Processing.FiveIntervalExample | src/processing.py:31-39 | On [0.8, 0.81, 0.79, 3.5, 0.8] s, denoising leaves NaN only at the 3.5 s interval. The ectopic test flags that interval but not the normal interval after it. |
| Processing.TruncateRrIntervals | src/processing.py:158-180 | The result is a prefix of the input, and each of its running sums is at most the target. If it is shorter than the input, adding the next interval to its sum exceeds the target. |
| Processing.LongestFittingPrefixIsUnique | src/processing.py:164-171 | At most one prefix meets that stopping rule, so the rule fixes the result completely. |
| Processing.FittingPrefixIsNoLonger | src/processing.py:164-171 | No prefix whose running sums all fit the target is longer than the one the loop stops at. |
| Processing.FittingRecordingIsKeptWhole | src/processing.py:164-171 | For non-negative intervals whose total fits the target, truncation returns the input unchanged. |
| DirectoryStatistics.MaxOf | src/statistics_dir.py:42 | The result bounds every duration from above and is one of them. |
| DirectoryStatistics.MinOf | src/statistics_dir.py:43 | The result bounds every duration from below and is one of them. |
| DirectoryStatistics.FirstMaxIndex | src/statistics_dir.py:54-56 | The result is the first position that holds a maximal value. Every earlier value is strictly smaller. |
| DirectoryStatistics.FirstMinIndex | src/statistics_dir.py:58-60 | The result is the first position that holds a minimal value. Every earlier value is strictly larger. |
| DirectoryStatistics.MeanWithinBounds | src/statistics_dir.py:44 | The mean of a non-empty sequence lies between any lower and upper bound of its values. |
| DirectoryStatistics.MeanBetweenExtremes | src/statistics_dir.py:42-44 | The mean duration lies between the minimum and the maximum duration. |
| DirectoryStatistics.BelowCountIsCardinality | src/statistics_dir.py:46-48 | The below-threshold count is the number of files whose quality is strictly below the threshold. A quality equal to the threshold is not below it. |
| DirectoryStatistics.EvaluateDirectoryStatistics | src/statistics_dir.py:21-67 | The result is absent iff there are no files. The file count is the number of files, and each file's duration is the sum of its intervals. Every duration lies between the reported minimum and maximum. The mean is the sum of the durations divided by the file count, and it too lies between the minimum and the maximum. The reported longest and shortest files are the first files in listing order to attain those durations. The below-threshold count is the number of files with quality strictly below the threshold, and the below and above counts add up to the file count. |

## Left out

- `np.percentile` and its interpolation rule are not modelled. The outlier
  test and the quality score take the percentile routine as a function
  parameter and assume nothing about it.
- Float rounding is not modelled, because exact reals stand in for floats.
  This includes the rounding in the ×1000/÷1000 round trip and in the
  running sum of the truncation.
- The statistics report durations in seconds and the threshold as an exact
  percentage. The conversion to minutes, `round(..., 2)` and `round(..., 1)`
  are presentation, so the model leaves them out.
- Logging is a side effect that does not change any result. This covers the
  ectopic and outlier percentages of `evaluate_signal_quality`. It also
  covers that function's `threshold` argument, which only chooses a log
  message.
- `src/file_io.py`, `src/utils.py` and `src/logging_config.py` are file I/O,
  directory listing and logging setup. So is the directory creation in
  `src/config.py`.
- DirectoryStatistics.EvaluateDirectoryStatistics: the source loads each
  listed file and computes its quality with `evaluate_signal_quality`
  (src/statistics_dir.py:29-31). The model instead takes one
  `(name, intervals, quality)` record per file. The quality is a free input
  that the model does not tie to the intervals, so the contract says
  nothing about how a file's quality relates to its intervals.
- DirectoryStatistics.EvaluateDirectoryStatistics: an unreadable file makes
  `load_rr_intervals` return None (src/file_io.py:22-24). The source then
  fails with an exception when it sums or scores that None
  (src/statistics_dir.py:30-31). The model has no such error path, because
  every record it receives already holds intervals.
- `process_data` in `src/main.py` is orchestration over files. That covers
  the removal of the first 10 intervals and the accept/reject decision.
- `generate_statistics_report` formats tables and prints or writes them.
- The `policy` parameter of `truncate_rr_intervals` is never read. The
  commented-out median filter, `OUTLIER_THRESHOLD` and
  `MEDIAN_FILTER_KERNEL_SIZE` are unused too.
- Processing.DetectEctopicBeats: requires every interval to be positive,
  because RR-intervals are positive durations. A zero interval would give
  numpy an infinite or NaN ratio, and floats are not modelled.
  Processing.EvaluateSignalQuality, Processing.ValidBeats and the ectopic
  lemmas carry the same requirement.
- Processing.EvaluateSignalQuality: for an empty series the score is 0. The
  one-entry ectopic mask broadcasts against the empty outlier mask. Whether
  numpy's percentile of an empty array raises an error instead depends on
  the numpy version, and the model does not follow that.
- The classifiers take NaN-free series (`seq<real>`). Only the range filter
  and the denoise pipeline accept NaN samples.
- Processing.TruncateRrIntervals: takes a NaN-free series, so its behaviour
  on NaN is not modelled. In the source, the comparison at
  src/processing.py:168 is false for a NaN interval, so that interval is kept
  and the running sum becomes NaN. Every later comparison is then false as
  well, and the rest of the recording is kept whatever its length. Denoised
  output contains NaN wherever a sample was rejected. A model of that case
  would need NaN arithmetic in the running sum, which exact reals do not
  have.
- DirectoryStatistics.EvaluateDirectoryStatistics: requires distinct file
  names. The per-file table is keyed by file path, and a directory listing
  never repeats a path.
