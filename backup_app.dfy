/**
 * The earlier revision in _backup/App.js: the same detectPeaks and
 * calculateIntervals, a determineBreathingType whose deep rule bounds the
 * average exhale from above (DEEP_EXHALE_MAX = 4), and an updater that
 * pushes the new average and deviation onto freshly sliced copies.
 */
module BackupApp {
  import opened Types
  import opened Utils
  import opened BreathingAnalysis
  import opened BreathingData

  /** The `setHistory` updater of the earlier revision. It builds the
      shifted buffers first, then pushes the new average and deviation onto
      the copies, and runs the analysis on the result; it ends in the same
      state as the current updater under the earlier constants. */
  method BackupUpdate(prev: HistoryState, sample: real, now: int) returns (r: HistoryState)
    requires |prev.timestamp| == |prev.yMA|
    ensures r == Update(prev, sample, now, BackupConfig)
    ensures SameLengths(prev) && |prev.y| > 0 ==> SameLengths(r) && |r.y| == |prev.y|
  {
    var cfg := BackupConfig;
    var y := DropOldest(prev.y) + [sample];
    var yMA := DropOldest(prev.yMA);
    var yDeviation := DropOldest(prev.yDeviation);
    var timestamp := DropOldest(prev.timestamp) + [now];

    var ma := CalculateMA(y, cfg.maWindow);
    yMA := yMA + [ma];

    var deviation := Deviation(sample, ma);
    yDeviation := yDeviation + [deviation];

    var peaks := DetectPeaks(yMA, timestamp, cfg.peakPatience, cfg.peakThreshold);
    var intervals := CalculateIntervals(peaks.maxima, peaks.minima);
    var breathing := DetermineBreathingType(intervals, cfg);

    r := HistoryState(y, yMA, yDeviation, peaks, intervals, timestamp,
                      breathing.kind, breathing.detail, breathing.period,
                      CalculateRange(y), CalculateRange(yMA), CalculateRange(yDeviation));
    if SameLengths(prev) && |prev.y| > 0 {
      UpdateShifts(prev, sample, now, cfg);
    }
  }

  /** The earlier deep rule: steady breathing with inhales of at least 3 s
      is deep exactly when its exhales last at most 4 s; it is stable either
      way, with period `ci + ce`. */
  lemma BackupDepthRule(intervals: Intervals, ci: real, ce: real)
    requires Steady(intervals, BackupConfig, ci, ce)
    requires ci >= 3.0
    ensures DetermineBreathingType(intervals, BackupConfig) ==
      Breathing(Classified(if ce <= 4.0 then Deep else Normal, Stable), ci + ce, Averages(ci, ce))
  {
    SteadyBreathingIsStable(intervals, BackupConfig, ci, ce);
  }

  /** Short inhales are never deep under the earlier rule, whatever the
      exhales. */
  lemma BackupShortInhaleNormal(intervals: Intervals, ci: real, ce: real)
    requires Steady(intervals, BackupConfig, ci, ce)
    requires ci < 3.0
    ensures DetermineBreathingType(intervals, BackupConfig).kind == Classified(Normal, Stable)
  {
    SteadyBreathingIsStable(intervals, BackupConfig, ci, ce);
  }
}
