/** Descriptive statistics over the recordings of one directory: how many
    there are, their shortest, longest and mean durations with the files
    that attain the extremes, and how many fall below the quality
    threshold. Listing and loading the files is left to the caller, which
    hands over one record per file. */
module DirectoryStatistics {
  import opened Options
  import opened Series

  /** One recording of a directory: its file name, its RR-intervals in
      seconds and the quality score computed for them. */
  datatype RecordingFile = RecordingFile(name: string, intervals: seq<real>, quality: real)

  /** The statistics record of a directory. Durations are in seconds. */
  datatype DirectoryStats = DirectoryStats(
    directory: string,
    numFiles: nat,
    maxDuration: real,
    fileMaxDuration: string,
    minDuration: real,
    fileMinDuration: string,
    meanDuration: real,
    qualityThresholdPercent: real,
    filesBelowThreshold: nat,
    filesAboveThreshold: nat)

  /** A recording lasts as long as the sum of its intervals. */
  function Duration(f: RecordingFile): real
  {
    Sum(f.intervals)
  }

  function Durations(files: seq<RecordingFile>): (durations: seq<real>)
    ensures |durations| == |files|
    ensures forall i :: 0 <= i < |files| ==> durations[i] == Duration(files[i])
  {
    seq(|files|, i requires 0 <= i < |files| => Duration(files[i]))
  }

  /** The files come from one directory listing, so no name repeats; the
      per-file table is keyed by file and holds one entry per file. */
  predicate DistinctNames(files: seq<RecordingFile>)
  {
    forall i, j :: 0 <= i < j < |files| ==> files[i].name != files[j].name
  }

  /** Largest value of a non-empty sequence (`np.max`). */
  function MaxOf(s: seq<real>): (m: real)
    requires |s| > 0
    ensures forall i :: 0 <= i < |s| ==> s[i] <= m
    ensures exists i :: 0 <= i < |s| && s[i] == m
  {
    if |s| == 1 then s[0]
    else
      var m' := MaxOf(s[..|s| - 1]);
      if s[|s| - 1] > m' then s[|s| - 1] else m'
  }

  /** Smallest value of a non-empty sequence (`np.min`). */
  function MinOf(s: seq<real>): (m: real)
    requires |s| > 0
    ensures forall i :: 0 <= i < |s| ==> m <= s[i]
    ensures exists i :: 0 <= i < |s| && s[i] == m
  {
    if |s| == 1 then s[0]
    else
      var m' := MinOf(s[..|s| - 1]);
      if s[|s| - 1] < m' then s[|s| - 1] else m'
  }

  /** Position Python's `max(..., key=...)` picks: scanning in order, the
      candidate is replaced only by a strictly larger value, so the first
      maximal position wins. */
  function FirstMaxIndex(s: seq<real>): (k: nat)
    requires |s| > 0
    ensures k < |s|
    ensures forall i :: 0 <= i < |s| ==> s[i] <= s[k]
    ensures forall i :: 0 <= i < k ==> s[i] < s[k]
  {
    if |s| == 1 then 0
    else
      var k' := FirstMaxIndex(s[..|s| - 1]);
      if s[|s| - 1] > s[k'] then |s| - 1 else k'
  }

  /** Position Python's `min(..., key=...)` picks: the first minimal one. */
  function FirstMinIndex(s: seq<real>): (k: nat)
    requires |s| > 0
    ensures k < |s|
    ensures forall i :: 0 <= i < |s| ==> s[k] <= s[i]
    ensures forall i :: 0 <= i < k ==> s[k] < s[i]
  {
    if |s| == 1 then 0
    else
      var k' := FirstMinIndex(s[..|s| - 1]);
      if s[|s| - 1] < s[k'] then |s| - 1 else k'
  }

  /** A quality strictly below the threshold; a quality equal to it is not below. */
  predicate BelowThreshold(quality: real, threshold: real)
  {
    quality < threshold
  }

  /** Which files score below the threshold (`q < QUALITY_THRESHOLD` per file). */
  function BelowMask(files: seq<RecordingFile>, threshold: real): (below: seq<bool>)
    ensures |below| == |files|
  {
    seq(|files|, i requires 0 <= i < |files| => BelowThreshold(files[i].quality, threshold))
  }

  /** A mean lies between any bounds of its summands. */
  lemma MeanWithinBounds(s: seq<real>, lo: real, hi: real)
    requires |s| > 0
    requires forall i :: 0 <= i < |s| ==> lo <= s[i] <= hi
    ensures lo <= Sum(s) / |s| as real <= hi
  {
    var total := Sum(s);
    SumBetweenBounds(s, lo, hi);
    QuotientWithinBounds(total, |s|, lo, hi);
  }

  /** The mean duration lies between the shortest and the longest. */
  lemma MeanBetweenExtremes(durations: seq<real>)
    requires |durations| > 0
    ensures MinOf(durations) <= Sum(durations) / |durations| as real <= MaxOf(durations)
  {
    var lo, hi := MinOf(durations), MaxOf(durations);
    assert forall i :: 0 <= i < |durations| ==> lo <= durations[i] <= hi;
    MeanWithinBounds(durations, lo, hi);
  }

  /** The below-threshold count is the number of files whose quality is
      strictly below the threshold. */
  lemma BelowCountIsCardinality(files: seq<RecordingFile>, threshold: real)
    ensures CountTrue(BelowMask(files, threshold)) == |set i | 0 <= i < |files| && files[i].quality < threshold|
  {
    var below := BelowMask(files, threshold);
    CountTrueIsCardinality(below);
    assert TrueIndices(below) == set i | 0 <= i < |files| && files[i].quality < threshold;
  }

  /** The statistics record of a non-empty directory. */
  function Summary(directory: string, files: seq<RecordingFile>, qualityThreshold: real): DirectoryStats
    requires |files| > 0
  {
    var durations := Durations(files);
    var belowCount := CountTrue(BelowMask(files, qualityThreshold));
    DirectoryStats(
      directory,
      |files|,
      MaxOf(durations),
      files[FirstMaxIndex(durations)].name,
      MinOf(durations),
      files[FirstMinIndex(durations)].name,
      Sum(durations) / |durations| as real,
      qualityThreshold * 100.0,
      belowCount,
      |files| - belowCount)
  }

  /** Every file's duration lies between the reported extremes, and so does the mean. */
  predicate ReportsDurationRange(files: seq<RecordingFile>, stats: DirectoryStats)
  {
    && (forall i :: 0 <= i < |files| ==> stats.minDuration <= Duration(files[i]) <= stats.maxDuration)
    && stats.minDuration <= stats.meanDuration <= stats.maxDuration
  }

  /** The reported file names are those of the first files, in listing
      order, that attain the longest and the shortest duration. */
  predicate ReportsExtremalFiles(files: seq<RecordingFile>, stats: DirectoryStats)
  {
    && (exists i :: 0 <= i < |files| && files[i].name == stats.fileMaxDuration
                     && Duration(files[i]) == stats.maxDuration
                     && forall j :: 0 <= j < i ==> Duration(files[j]) < stats.maxDuration)
    && (exists i :: 0 <= i < |files| && files[i].name == stats.fileMinDuration
                     && Duration(files[i]) == stats.minDuration
                     && forall j :: 0 <= j < i ==> stats.minDuration < Duration(files[j]))
  }

  lemma SummaryDurationsInRange(directory: string, files: seq<RecordingFile>, qualityThreshold: real)
    requires |files| > 0
    ensures ReportsDurationRange(files, Summary(directory, files, qualityThreshold))
  {
    MeanBetweenExtremes(Durations(files));
  }

  lemma SummaryNamesExtremalFiles(directory: string, files: seq<RecordingFile>, qualityThreshold: real)
    requires |files| > 0
    ensures ReportsExtremalFiles(files, Summary(directory, files, qualityThreshold))
  {
    var durations := Durations(files);
    var kMax, kMin := FirstMaxIndex(durations), FirstMinIndex(durations);
    assert durations[kMax] == MaxOf(durations);
    assert durations[kMin] == MinOf(durations);
  }

  /** Statistics of a directory, or `None` when it holds no files. */
  function EvaluateDirectoryStatistics(directory: string, files: seq<RecordingFile>, qualityThreshold: real)
    : (stats: Option<DirectoryStats>)
    requires DistinctNames(files)
    ensures stats.None? <==> |files| == 0
    ensures stats.Some? ==> stats.value.directory == directory && stats.value.numFiles == |files|
    ensures stats.Some? ==> stats.value.meanDuration == Sum(Durations(files)) / |files| as real
    ensures stats.Some? ==> ReportsDurationRange(files, stats.value)
    ensures stats.Some? ==> ReportsExtremalFiles(files, stats.value)
    ensures stats.Some? ==>
              stats.value.filesBelowThreshold == |set i | 0 <= i < |files| && files[i].quality < qualityThreshold|
    ensures stats.Some? ==> stats.value.filesBelowThreshold + stats.value.filesAboveThreshold == |files|
    ensures stats.Some? ==> stats.value.qualityThresholdPercent == qualityThreshold * 100.0
  {
    if |files| == 0 then None
    else
      SummaryDurationsInRange(directory, files, qualityThreshold);
      SummaryNamesExtremalFiles(directory, files, qualityThreshold);
      BelowCountIsCardinality(files, qualityThreshold);
      Some(Summary(directory, files, qualityThreshold))
  }
}
